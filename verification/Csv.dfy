/** The CSV line parser, against a writer that follows section 2 of RFC 4180. */
module Csv {
  import opened Text

  datatype Parser = Parser(fields: seq<string>, current: string, inQuotes: bool)
  {
    function Push(c: char): Parser {
      this.(current := current + [c])
    }

    function Toggle(): Parser {
      this.(inQuotes := !inQuotes)
    }

    function EndField(): Parser {
      Parser(fields + [Trim(current)], [], inQuotes)
    }
  }

  /** The fields once the rest of the line has been read. */
  function ParseFrom(line: string, p: Parser): (fields: seq<string>)
    ensures fields != []
  {
    if line == [] then p.EndField().fields
    else if line[0] == '"' then
      if p.inQuotes && |line| > 1 && line[1] == '"' then ParseFrom(line[2..], p.Push('"'))
      else ParseFrom(line[1..], p.Toggle())
    else if line[0] == ',' && !p.inQuotes then ParseFrom(line[1..], p.EndField())
    else ParseFrom(line[1..], p.Push(line[0]))
  }

  const START := Parser([], [], false)

  function Parse(line: string): seq<string> {
    ParseFrom(line, START)
  }

  /** The loop over a peekable iterator. */
  method ParseCsvLine(line: string) returns (fields: seq<string>)
    ensures fields == Parse(line)
  {
    fields := [];
    var current: string := [];
    var inQuotes := false;
    var next := 0;
    while next < |line|
      invariant 0 <= next <= |line|
      invariant ParseFrom(line[next..], Parser(fields, current, inQuotes)) == Parse(line)
    {
      var c := line[next];
      next := next + 1;
      if c == '"' {
        if inQuotes && next < |line| && line[next] == '"' {
          current := current + ['"'];
          next := next + 1;
        } else {
          inQuotes := !inQuotes;
        }
      } else if c == ',' && !inQuotes {
        fields := fields + [Trim(current)];
        current := [];
      } else {
        current := current + [c];
      }
    }
    fields := fields + [Trim(current)];
  }

  // ----- writing

  predicate NeedsQuotes(field: string) {
    exists i :: 0 <= i < |field| && field[i] in {'"', ',', '\r', '\n'}
  }

  function Doubled(field: string): string {
    if field == [] then [] else
      (if field[0] == '"' then ['"', '"'] else [field[0]]) + Doubled(field[1..])
  }

  /** A field and the writer's choice to quote it; the standard leaves the choice open unless it is needed. */
  datatype Written = Written(field: string, quoted: bool)
  {
    function Text(): string {
      if quoted then ['"'] + Doubled(field) + ['"'] else field
    }
  }

  ghost predicate Conforms(fields: seq<Written>) {
    forall i :: 0 <= i < |fields| ==> NeedsQuotes(fields[i].field) ==> fields[i].quoted
  }

  function WriteLine(fields: seq<Written>): string
    requires fields != []
  {
    if |fields| == 1 then fields[0].Text() else fields[0].Text() + [','] + WriteLine(fields[1..])
  }

  function TrimAll(fields: seq<Written>): seq<string> {
    seq(|fields|, i requires 0 <= i < |fields| => Trim(fields[i].field))
  }

  /** Inside quotes one written character is one parsed character. */
  lemma QuotedStep(c: char, tail: string, p: Parser)
    requires p.inQuotes
    ensures ParseFrom((if c == '"' then ['"', '"'] else [c]) + tail, p) == ParseFrom(tail, p.Push(c))
  {
    if c == '"' {
      assert (['"', '"'] + tail)[2..] == tail;
    } else {
      assert ([c] + tail)[1..] == tail;
    }
  }

  lemma DoubledFront(field: string, rest: string)
    requires field != []
    ensures Doubled(field) + rest ==
      (if field[0] == '"' then ['"', '"'] else [field[0]]) + (Doubled(field[1..]) + rest)
  {
  }

  lemma PushAll(p: Parser, field: string)
    requires field != []
    ensures var q := p.Push(field[0]); q.(current := q.current + field[1..]) == p.(current := p.current + field)
  {
    assert p.current + [field[0]] + field[1..] == p.current + field;
  }

  lemma {:induction false} ParseQuoted(field: string, rest: string, p: Parser)
    requires p.inQuotes
    ensures ParseFrom(Doubled(field) + rest, p) == ParseFrom(rest, p.(current := p.current + field))
  {
    if field == [] {
      assert Doubled(field) + rest == rest && p.current + field == p.current;
    } else {
      DoubledFront(field, rest);
      QuotedStep(field[0], Doubled(field[1..]) + rest, p);
      ParseQuoted(field[1..], rest, p.Push(field[0]));
      PushAll(p, field);
    }
  }

  lemma {:induction false} ParsePlain(field: string, rest: string, p: Parser)
    requires !p.inQuotes && !NeedsQuotes(field)
    ensures ParseFrom(field + rest, p) == ParseFrom(rest, p.(current := p.current + field))
  {
    if field == [] {
      assert field + rest == rest && p.current + field == p.current;
    } else {
      assert !NeedsQuotes(field[1..]);
      ParsePlain(field[1..], rest, p.Push(field[0]));
      assert p.current + [field[0]] + field[1..] == p.current + field;
      assert (field + rest)[1..] == field[1..] + rest;
    }
  }

  /** One written field, up to the comma or the end of the line that follows it. */
  lemma ParseField(w: Written, rest: string, fields: seq<string>)
    requires NeedsQuotes(w.field) ==> w.quoted
    requires rest == [] || rest[0] == ','
    ensures ParseFrom(w.Text() + rest, Parser(fields, [], false)) == ParseFrom(rest, Parser(fields, w.field, false))
  {
    var p := Parser(fields, [], false);
    if w.quoted {
      var line := w.Text() + rest;
      assert line[1..] == Doubled(w.field) + (['"'] + rest);
      ParseQuoted(w.field, ['"'] + rest, p.Toggle());
      assert (['"'] + rest)[1..] == rest;
      assert [] + w.field == w.field;
    } else {
      ParsePlain(w.field, rest, p);
      assert [] + w.field == w.field;
    }
  }

  /** A written field and its comma move the parser to the next field. */
  lemma ParseFieldAndComma(w: Written, tail: string, before: seq<string>)
    requires NeedsQuotes(w.field) ==> w.quoted
    ensures ParseFrom(w.Text() + [','] + tail, Parser(before, [], false)) ==
      ParseFrom(tail, Parser(before + [Trim(w.field)], [], false))
  {
    ParseField(w, [','] + tail, before);
    assert w.Text() + [','] + tail == w.Text() + ([','] + tail);
    assert ([','] + tail)[1..] == tail;
  }

  lemma {:induction false} ParseWritten(fields: seq<Written>, before: seq<string>)
    requires fields != [] && Conforms(fields)
    ensures ParseFrom(WriteLine(fields), Parser(before, [], false)) == before + TrimAll(fields)
  {
    var first := fields[0];
    if |fields| == 1 {
      ParseField(first, [], before);
      assert first.Text() + [] == first.Text();
      assert TrimAll(fields) == [Trim(first.field)];
    } else {
      ParseFieldAndComma(first, WriteLine(fields[1..]), before);
      ParseWritten(fields[1..], before + [Trim(first.field)]);
      assert TrimAll(fields) == [Trim(first.field)] + TrimAll(fields[1..]);
    }
  }

  /** Any conforming way to write the fields parses back to each of them, trimmed. */
  lemma WriteParse(fields: seq<Written>)
    requires fields != [] && Conforms(fields)
    ensures Parse(WriteLine(fields)) == TrimAll(fields)
  {
    ParseWritten(fields, []);
  }

  ghost predicate AllTrimmed(fields: seq<string>) {
    forall i :: 0 <= i < |fields| ==> Trim(fields[i]) == fields[i]
  }

  lemma {:induction false} ParsedAreTrimmed(line: string, p: Parser)
    requires AllTrimmed(p.fields)
    ensures AllTrimmed(ParseFrom(line, p))
    decreases |line|
  {
    TrimIdempotent(p.current);
    if line != [] {
      if line[0] == '"' {
        if p.inQuotes && |line| > 1 && line[1] == '"' {
          ParsedAreTrimmed(line[2..], p.Push('"'));
        } else {
          ParsedAreTrimmed(line[1..], p.Toggle());
        }
      } else if line[0] == ',' && !p.inQuotes {
        ParsedAreTrimmed(line[1..], p.EndField());
      } else {
        ParsedAreTrimmed(line[1..], p.Push(line[0]));
      }
    }
  }

  /** Parsing, writing in any conforming way and parsing again gives the first result. */
  lemma ParseWriteParse(line: string, fields: seq<Written>)
    requires |fields| == |Parse(line)| && Conforms(fields)
    requires forall i :: 0 <= i < |fields| ==> fields[i].field == Parse(line)[i]
    ensures Parse(WriteLine(fields)) == Parse(line)
  {
    WriteParse(fields);
    ParsedAreTrimmed(line, START);
  }

  // ----- how many fields

  function QuoteCount(s: string): nat {
    if s == [] then 0 else QuoteCount(s[..|s| - 1]) + (if s[|s| - 1] == '"' then 1 else 0)
  }

  /** The commas with an even number of quote characters before them. */
  function CommasOutsideQuotes(line: string): nat {
    if line == [] then 0 else
      var init := line[..|line| - 1];
      CommasOutsideQuotes(init) + (if line[|line| - 1] == ',' && QuoteCount(init) % 2 == 0 then 1 else 0)
  }

  /** The same count, read forwards from a quoting state. */
  function CommasFrom(line: string, inQuotes: bool): nat {
    if line == [] then 0
    else if line[0] == '"' then CommasFrom(line[1..], !inQuotes)
    else (if line[0] == ',' && !inQuotes then 1 else 0) + CommasFrom(line[1..], inQuotes)
  }

  lemma {:induction false} QuoteCountCons(c: char, s: string)
    ensures QuoteCount([c] + s) == (if c == '"' then 1 else 0) + QuoteCount(s)
  {
    if s == [] {
      assert [c] + s == [c] && [c][..0] == [];
    } else {
      assert ([c] + s)[..|s|] == [c] + s[..|s| - 1];
      QuoteCountCons(c, s[..|s| - 1]);
    }
  }

  lemma {:induction false} CommasAppend(s: string, c: char, inQuotes: bool)
    ensures var quoted := inQuotes != (QuoteCount(s) % 2 == 1);
            CommasFrom(s + [c], inQuotes) == CommasFrom(s, inQuotes) + (if c == ',' && !quoted then 1 else 0)
  {
    if s != [] {
      assert (s + [c])[1..] == s[1..] + [c];
      assert s == [s[0]] + s[1..];
      QuoteCountCons(s[0], s[1..]);
      CommasAppend(s[1..], c, if s[0] == '"' then !inQuotes else inQuotes);
    }
  }

  lemma {:induction false} CommasAgree(line: string)
    ensures CommasFrom(line, false) == CommasOutsideQuotes(line)
  {
    if line != [] {
      var init := line[..|line| - 1];
      CommasAgree(init);
      CommasAppend(init, line[|line| - 1], false);
      assert line == init + [line[|line| - 1]];
    }
  }

  lemma {:induction false} CountFrom(line: string, p: Parser)
    ensures |ParseFrom(line, p)| == |p.fields| + 1 + CommasFrom(line, p.inQuotes)
    decreases |line|
  {
    if line != [] {
      if line[0] == '"' {
        if p.inQuotes && |line| > 1 && line[1] == '"' {
          CountFrom(line[2..], p.Push('"'));
          assert line[1..][1..] == line[2..];
        } else {
          CountFrom(line[1..], p.Toggle());
        }
      } else if line[0] == ',' && !p.inQuotes {
        CountFrom(line[1..], p.EndField());
      } else {
        CountFrom(line[1..], p.Push(line[0]));
      }
    }
  }

  /** The parser finds one field more than there are commas outside quotes, doubled quotes included. */
  lemma FieldCount(line: string)
    ensures |Parse(line)| == 1 + CommasOutsideQuotes(line)
  {
    CountFrom(line, START);
    CommasAgree(line);
  }

  // ----- what each field is, for every line

  /** The character at `i` is part of a field: a quote only when it is inside quotes and followed by another, a comma
      only inside quotes, anything else always. */
  ghost predicate Kept(line: string, i: nat)
    requires i < |line|
  {
    var inside := QuoteCount(line[..i]) % 2 == 1;
    if line[i] == '"' then inside && i + 1 < |line| && line[i + 1] == '"' else line[i] == ',' ==> inside
  }

  /** The kept characters among the first `n` that have `f` commas outside quotes before them. */
  ghost function FieldText(line: string, n: nat, f: nat): string
    requires n <= |line|
  {
    if n == 0 then [] else
      FieldText(line, n - 1, f) +
      (if CommasOutsideQuotes(line[..n - 1]) == f && Kept(line, n - 1) then [line[n - 1]] else [])
  }

  /** The parser after `n` characters of the line. */
  ghost predicate Follows(line: string, n: nat, p: Parser) {
    && n <= |line|
    && |p.fields| == CommasOutsideQuotes(line[..n])
    && p.current == FieldText(line, n, |p.fields|)
    && (p.inQuotes <==> QuoteCount(line[..n]) % 2 == 1)
    && forall f :: 0 <= f < |p.fields| ==> p.fields[f] == Trim(FieldText(line, n, f))
  }

  lemma {:induction false} LaterEmpty(line: string, n: nat, f: nat)
    requires n <= |line| && f > CommasOutsideQuotes(line[..n])
    ensures FieldText(line, n, f) == []
  {
    if n > 0 {
      assert line[..n][..n - 1] == line[..n - 1];
      LaterEmpty(line, n - 1, f);
    }
  }

  ghost function After(line: string, n: nat, p: Parser): Parser
    requires n < |line|
  {
    if line[n] == '"' then (if Kept(line, n) then p.Push('"') else p).Toggle()
    else if line[n] == ',' && !p.inQuotes then p.EndField()
    else p.Push(line[n])
  }

  /** One character more: what it adds to each field, to the commas and to the quotes. */
  lemma OneMore(line: string, n: nat, f: nat)
    requires n < |line|
    ensures FieldText(line, n + 1, f) ==
      FieldText(line, n, f) + (if CommasOutsideQuotes(line[..n]) == f && Kept(line, n) then [line[n]] else [])
    ensures QuoteCount(line[..n + 1]) == QuoteCount(line[..n]) + (if line[n] == '"' then 1 else 0)
    ensures CommasOutsideQuotes(line[..n + 1]) ==
      CommasOutsideQuotes(line[..n]) + (if line[n] == ',' && QuoteCount(line[..n]) % 2 == 0 then 1 else 0)
  {
    assert line[..n + 1][..n] == line[..n];
  }

  lemma OtherField(line: string, n: nat, f: nat)
    requires n < |line| && (CommasOutsideQuotes(line[..n]) != f || !Kept(line, n))
    ensures FieldText(line, n + 1, f) == FieldText(line, n, f)
  {
    OneMore(line, n, f);
    assert FieldText(line, n, f) + [] == FieldText(line, n, f);
  }

  lemma AdvanceComma(line: string, n: nat, p: Parser)
    requires Follows(line, n, p) && n < |line| && line[n] == ',' && !p.inQuotes
    ensures Follows(line, n + 1, p.EndField())
  {
    var k := |p.fields|;
    OneMore(line, n, k);
    LaterEmpty(line, n, k + 1);
    OtherField(line, n, k + 1);
    forall f | 0 <= f <= k ensures FieldText(line, n + 1, f) == FieldText(line, n, f) {
      OtherField(line, n, f);
    }
  }

  lemma AdvanceWithin(line: string, n: nat, p: Parser)
    requires Follows(line, n, p) && n < |line| && !(line[n] == ',' && !p.inQuotes)
    ensures Follows(line, n + 1, After(line, n, p))
  {
    var k := |p.fields|;
    OneMore(line, n, k);
    if !Kept(line, n) {
      OtherField(line, n, k);
    }
    forall f | 0 <= f < k ensures FieldText(line, n + 1, f) == FieldText(line, n, f) {
      OtherField(line, n, f);
    }
  }

  lemma Advance(line: string, n: nat, p: Parser)
    requires Follows(line, n, p) && n < |line|
    ensures Follows(line, n + 1, After(line, n, p))
  {
    if line[n] == ',' && !p.inQuotes {
      AdvanceComma(line, n, p);
    } else {
      AdvanceWithin(line, n, p);
    }
  }

  /** A kept quote and the one after it, which the parser takes together. */
  lemma AdvancePair(line: string, n: nat, p: Parser)
    requires Follows(line, n, p) && n < |line| && line[n] == '"' && Kept(line, n)
    ensures n + 2 <= |line| && Follows(line, n + 2, p.Push('"'))
    ensures ParseFrom(line[n..], p) == ParseFrom(line[n + 2..], p.Push('"'))
  {
    Advance(line, n, p);
    OneMore(line, n, 0);
    Advance(line, n + 1, p.Push('"').Toggle());
    assert line[n..][1] == line[n + 1];
    assert line[n..][2..] == line[n + 2..];
  }

  lemma AdvanceOne(line: string, n: nat, p: Parser)
    requires Follows(line, n, p) && n < |line| && !(line[n] == '"' && Kept(line, n))
    ensures Follows(line, n + 1, After(line, n, p))
    ensures ParseFrom(line[n..], p) == ParseFrom(line[n + 1..], After(line, n, p))
  {
    Advance(line, n, p);
    assert line[n..][1..] == line[n + 1..];
  }

  lemma {:induction false} FollowParse(line: string, n: nat, p: Parser, f: nat)
    requires Follows(line, n, p)
    ensures f < |ParseFrom(line[n..], p)| ==> ParseFrom(line[n..], p)[f] == Trim(FieldText(line, |line|, f))
    decreases |line| - n
  {
    if n < |line| {
      if line[n] == '"' && Kept(line, n) {
        AdvancePair(line, n, p);
        FollowParse(line, n + 2, p.Push('"'), f);
      } else {
        AdvanceOne(line, n, p);
        FollowParse(line, n + 1, After(line, n, p), f);
      }
    }
  }

  /** For every line, conforming or not, field `f` is the kept characters between the commas that end the fields around
      it, trimmed. */
  lemma {:induction false} ParsedField(line: string, f: nat)
    requires f < |Parse(line)|
    ensures Parse(line)[f] == Trim(FieldText(line, |line|, f))
  {
    assert line[..0] == [] && line[0..] == line;
    FollowParse(line, 0, START, f);
  }
}
