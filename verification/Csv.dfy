/** The playground's CSV writer against the importer's CSV reader. */
module Csv {

  const QUOTE: char := '"'
  const COMMA: char := ','
  const NEWLINE: char := '\n'

  /** Which characters trimming removes. */
  type Space = char -> bool

  function TrimStart(s: string, space: Space): string {
    if s == "" || !space(s[0]) then s else TrimStart(s[1..], space)
  }

  function TrimEnd(s: string, space: Space): string {
    if s == "" || !space(s[|s| - 1]) then s else TrimEnd(s[..|s| - 1], space)
  }

  function Trim(s: string, space: Space): string {
    TrimEnd(TrimStart(s, space), space)
  }

  // ---------------------------------------------------------------- reading

  /** The fields of the rest of a line, with the field being read and whether it is inside quotes. */
  function Fields(s: string, current: string, inQuotes: bool, space: Space): (r: seq<string>)
    ensures r != []
    decreases |s|
  {
    if s == "" then [Trim(current, space)]
    else if s[0] == QUOTE then
      if inQuotes && |s| > 1 && s[1] == QUOTE then Fields(s[2..], current + [QUOTE], inQuotes, space)
      else Fields(s[1..], current, !inQuotes, space)
    else if s[0] == COMMA && !inQuotes then [Trim(current, space)] + Fields(s[1..], "", inQuotes, space)
    else Fields(s[1..], current + [s[0]], inQuotes, space)
  }

  method ParseLine(s: string, space: Space) returns (cols: seq<string>)
    ensures cols == Fields(s, "", false, space)
  {
    cols := [];
    var current, inQuotes, i := "", false, 0;
    while i < |s|
      invariant 0 <= i <= |s|
      invariant cols + Fields(s[i..], current, inQuotes, space) == Fields(s, "", false, space)
    {
      var c := s[i];
      assert s[i..][1..] == s[i + 1..];
      if c == QUOTE {
        if inQuotes && i + 1 < |s| && s[i + 1] == QUOTE {
          assert s[i..][2..] == s[i + 2..];
          i := i + 1;
          current := current + [QUOTE];
        } else {
          inQuotes := !inQuotes;
        }
      } else if c == COMMA && !inQuotes {
        cols := cols + [Trim(current, space)];
        current := "";
      } else {
        current := current + [c];
      }
      i := i + 1;
    }
    cols := cols + [Trim(current, space)];
  }

  // ---------------------------------------------------------------- what trimming and splitting give

  /** `t` is what is left of `s` between `a` and `b`: only spaces outside, none at its own ends. */
  ghost predicate TrimsTo(s: string, t: string, a: nat, b: nat, space: Space) {
    && a <= b <= |s| && t == s[a..b]
    && (forall i :: 0 <= i < a || b <= i < |s| ==> space(s[i]))
    && (t != "" ==> !space(t[0]) && !space(t[|t| - 1]))
  }

  lemma TrimIs(s: string, space: Space)
    ensures exists a: nat, b: nat :: TrimsTo(s, Trim(s, space), a, b, space)
  {
    var a := SpacesBefore(s, space);
    var n := SpacesAfter(s[a..], space);
    assert s[a..][..n] == s[a..a + n];
    forall i | a + n <= i < |s|
      ensures space(s[i])
    {
      assert s[i] == s[a..][i - a];
    }
    assert TrimsTo(s, Trim(s, space), a, a + n, space);
  }

  lemma {:induction false} SpacesBefore(s: string, space: Space) returns (a: nat)
    ensures a <= |s| && TrimStart(s, space) == s[a..]
    ensures (forall i :: 0 <= i < a ==> space(s[i])) && (a < |s| ==> !space(s[a]))
  {
    a := 0;
    if s != "" && space(s[0]) {
      a := SpacesBefore(s[1..], space);
      a := a + 1;
      assert forall i :: 1 <= i < |s| ==> s[i] == s[1..][i - 1];
    }
  }

  lemma {:induction false} SpacesAfter(s: string, space: Space) returns (n: nat)
    ensures n <= |s| && TrimEnd(s, space) == s[..n]
    ensures (forall i :: n <= i < |s| ==> space(s[i])) && (n > 0 ==> !space(s[n - 1]))
  {
    n := |s|;
    if s != "" && space(s[|s| - 1]) {
      n := SpacesAfter(s[..|s| - 1], space);
    }
  }

  function Quotes(s: string): nat {
    if s == "" then 0 else Quotes(s[1..]) + if s[0] == QUOTE then 1 else 0
  }

  function WithoutQuotes(s: string): string {
    if s == "" then "" else (if s[0] == QUOTE then "" else [s[0]]) + WithoutQuotes(s[1..])
  }

  /** A comma after an even number of quotes splits the line there, whatever the quotes enclose. */
  lemma {:induction false} CommaSplits(a: string, b: string, current: string, inQuotes: bool, space: Space)
    requires inQuotes <==> Quotes(a) % 2 == 1
    ensures Fields(a + [COMMA] + b, current, inQuotes, space)
      == Fields(a, current, inQuotes, space) + Fields(b, "", false, space)
    decreases |a|
  {
    var s := a + [COMMA] + b;
    if a == "" {
      assert s[1..] == b;
    } else {
      assert s[1..] == a[1..] + [COMMA] + b && s[0] == a[0];
      if a[0] == QUOTE && inQuotes && |a| > 1 && a[1] == QUOTE {
        assert s[2..] == a[2..] + [COMMA] + b && a[1..][1..] == a[2..];
        CommaSplits(a[2..], b, current + [QUOTE], inQuotes, space);
      } else if a[0] == QUOTE {
        CommaSplits(a[1..], b, current, !inQuotes, space);
      } else if a[0] == COMMA && !inQuotes {
        CommaSplits(a[1..], b, "", inQuotes, space);
      } else {
        CommaSplits(a[1..], b, current + [a[0]], inQuotes, space);
      }
    }
  }

  /** Every comma comes after an odd number of quotes, the one before `s` counted when inside quotes. */
  ghost predicate CommasQuoted(s: string, inQuotes: bool) {
    forall i :: 0 <= i < |s| && s[i] == COMMA ==> (Quotes(s[..i]) % 2 == 1) != inQuotes
  }

  ghost predicate OneField(s: string, current: string, inQuotes: bool, space: Space, t: string) {
    Fields(s, current, inQuotes, space) == [Trim(current + t, space)] && WithoutQuotes(t) == WithoutQuotes(s)
  }

  /** Nothing else splits: without such a comma the text is one field, and only quotes are missing from it. */
  lemma {:induction false} NothingElseSplits(s: string, current: string, inQuotes: bool, space: Space)
    requires CommasQuoted(s, inQuotes)
    ensures exists t: string :: OneField(s, current, inQuotes, space, t)
    decreases |s|
  {
    if s == "" {
      assert current + "" == current;
      assert OneField(s, current, inQuotes, space, "");
    } else {
      CommasQuotedAfter(s, inQuotes);
      if s[0] == QUOTE && inQuotes && |s| > 1 && s[1] == QUOTE {
        CommasQuotedAfter(s[1..], !inQuotes);
        assert s[1..][1..] == s[2..];
        NothingElseSplits(s[2..], current + [QUOTE], inQuotes, space);
        var t :| OneField(s[2..], current + [QUOTE], inQuotes, space, t);
        OneMore(QUOTE, t, current);
        assert OneField(s, current, inQuotes, space, [QUOTE] + t);
      } else if s[0] == QUOTE {
        NothingElseSplits(s[1..], current, !inQuotes, space);
        var t :| OneField(s[1..], current, !inQuotes, space, t);
        assert OneField(s, current, inQuotes, space, t);
      } else {
        assert s[0] == COMMA ==> inQuotes by {
          assert s[..0] == "";
        }
        NothingElseSplits(s[1..], current + [s[0]], inQuotes, space);
        var t :| OneField(s[1..], current + [s[0]], inQuotes, space, t);
        OneMore(s[0], t, current);
        assert OneField(s, current, inQuotes, space, [s[0]] + t);
      }
    }
  }

  lemma OneMore(c: char, t: string, current: string)
    ensures current + ([c] + t) == current + [c] + t
    ensures WithoutQuotes([c] + t) == (if c == QUOTE then "" else [c]) + WithoutQuotes(t)
  {
    assert ([c] + t)[1..] == t;
  }

  lemma CommasQuotedAfter(s: string, inQuotes: bool)
    requires s != "" && CommasQuoted(s, inQuotes)
    ensures CommasQuoted(s[1..], if s[0] == QUOTE then !inQuotes else inQuotes)
  {
    forall i | 0 <= i < |s| - 1 && s[1..][i] == COMMA
      ensures Quotes(s[..i + 1]) == Quotes(s[1..][..i]) + (if s[0] == QUOTE then 1 else 0)
      ensures (Quotes(s[..i + 1]) % 2 == 1) != inQuotes
    {
      assert s[..i + 1][1..] == s[1..][..i] && s[i + 1] == COMMA;
    }
  }

  // ---------------------------------------------------------------- writing

  predicate NeedsQuotes(s: string) {
    QUOTE in s || COMMA in s || NEWLINE in s
  }

  /** Every quote doubled. */
  function Doubled(s: string): string {
    if s == "" then "" else (if s[0] == QUOTE then [QUOTE, QUOTE] else [s[0]]) + Doubled(s[1..])
  }

  function Quoted(s: string): string {
    if NeedsQuotes(s) then [QUOTE] + Doubled(s) + [QUOTE] else s
  }

  /** A field is written as it is unless it holds a quote, a comma or a newline. */
  lemma QuotedOnlyIf(f: string)
    ensures Quoted(f) == f <==> QUOTE !in f && COMMA !in f && NEWLINE !in f
  {
    if NeedsQuotes(f) {
      DoubledLength(f);
    }
  }

  lemma {:induction false} DoubledLength(f: string)
    ensures |Doubled(f)| >= |f|
  {
    if f != "" {
      DoubledLength(f[1..]);
    }
  }

  /** The fields quoted where they need it, joined by commas. */
  function Line(row: seq<string>): string
    requires row != []
  {
    if |row| == 1 then Quoted(row[0]) else Quoted(row[0]) + [COMMA] + Line(row[1..])
  }

  // ---------------------------------------------------------------- what is written reads back

  /** What follows a field: nothing, or the comma before the next. */
  predicate AfterField(rest: string) {
    rest == "" || rest[0] == COMMA
  }

  lemma {:induction false} PlainReads(f: string, current: string, rest: string, space: Space)
    requires QUOTE !in f && COMMA !in f
    ensures Fields(f + rest, current, false, space) == Fields(rest, current + f, false, space)
    decreases |f|
  {
    if f == "" {
      assert f + rest == rest && current + f == current;
    } else {
      assert (f + rest)[1..] == f[1..] + rest && (f + rest)[0] == f[0];
      assert f[0] in f;
      PlainReads(f[1..], current + [f[0]], rest, space);
      assert current + [f[0]] + f[1..] == current + f;
    }
  }

  /** Inside quotes everything up to the closing quote is the field, doubled quotes undoubled. */
  lemma {:induction false} DoubledReads(f: string, current: string, rest: string, space: Space)
    requires AfterField(rest)
    ensures Fields(Doubled(f) + [QUOTE] + rest, current, true, space) == Fields(rest, current + f, false, space)
    decreases |f|
  {
    var s := Doubled(f) + [QUOTE] + rest;
    if f == "" {
      assert s == [QUOTE] + rest && s[1..] == rest && current + f == current;
    } else {
      var tail := Doubled(f[1..]) + [QUOTE] + rest;
      DoubledReads(f[1..], current + [f[0]], rest, space);
      assert current + [f[0]] + f[1..] == current + f;
      if f[0] == QUOTE {
        assert s == [QUOTE, QUOTE] + tail && s[2..] == tail;
      } else {
        assert s == [f[0]] + tail && s[1..] == tail;
      }
    }
  }

  lemma OpenQuote(s: string, current: string, space: Space)
    requires s != "" && s[0] == QUOTE
    ensures Fields(s, current, false, space) == Fields(s[1..], current, true, space)
  {
  }

  lemma Reassociate(doubled: string, rest: string)
    ensures var s := [QUOTE] + doubled + [QUOTE] + rest;
      s != "" && s[0] == QUOTE && s[1..] == doubled + [QUOTE] + rest
  {
  }

  lemma QuotedReads(f: string, rest: string, space: Space)
    requires AfterField(rest)
    ensures Fields(Quoted(f) + rest, "", false, space) == Fields(rest, f, false, space)
  {
    assert "" + f == f;
    hide Doubled;
    hide Fields;
    if NeedsQuotes(f) {
      DoubledReads(f, "", rest, space);
      Reassociate(Doubled(f), rest);
      OpenQuote(Quoted(f) + rest, "", space);
    } else {
      PlainReads(f, "", rest, space);
    }
  }

  function Trimmed(row: seq<string>, space: Space): (r: seq<string>)
    ensures |r| == |row|
  {
    seq(|row|, i requires 0 <= i < |row| => Trim(row[i], space))
  }

  /** A written row reads back field for field, each trimmed. */
  lemma {:induction false} RowReadsBack(row: seq<string>, space: Space)
    requires row != []
    ensures Fields(Line(row), "", false, space) == Trimmed(row, space)
  {
    if |row| == 1 {
      QuotedReads(row[0], "", space);
      assert Quoted(row[0]) + "" == Quoted(row[0]);
    } else {
      var rest := [COMMA] + Line(row[1..]);
      QuotedReads(row[0], rest, space);
      assert Quoted(row[0]) + [COMMA] + Line(row[1..]) == Quoted(row[0]) + rest;
      assert rest[1..] == Line(row[1..]);
      RowReadsBack(row[1..], space);
      assert Trimmed(row, space) == [Trim(row[0], space)] + Trimmed(row[1..], space);
    }
  }

  // ---------------------------------------------------------------- where a written row may be cut

  lemma {:induction false} QuotesConcat(a: string, b: string)
    ensures Quotes(a + b) == Quotes(a) + Quotes(b)
  {
    if a == "" {
      assert a + b == b;
    } else {
      assert (a + b)[1..] == a[1..] + b;
      QuotesConcat(a[1..], b);
    }
  }

  /** A character of a doubled field other than a quote comes after an even number of quotes. */
  lemma {:induction false} DoubledIsEven(f: string, i: nat)
    requires i <= |Doubled(f)| && (i < |Doubled(f)| ==> Doubled(f)[i] != QUOTE)
    ensures Quotes(Doubled(f)[..i]) % 2 == 0
  {
    if i > 0 {
      var d, tail := Doubled(f), Doubled(f[1..]);
      if f[0] == QUOTE {
        assert d == [QUOTE, QUOTE] + tail;
        assert i > 1;
        DoubledIsEven(f[1..], i - 2);
        assert d[..i] == [QUOTE, QUOTE] + tail[..i - 2];
        assert d[..i][1..] == [QUOTE] + tail[..i - 2] && d[..i][1..][1..] == tail[..i - 2];
      } else {
        DoubledIsEven(f[1..], i - 1);
        assert d[..i] == [f[0]] + tail[..i - 1] && d[..i][1..] == tail[..i - 1];
      }
    }
  }

  lemma QuotedIsEven(f: string)
    ensures Quotes(Quoted(f)) % 2 == 0
    ensures forall i :: 0 <= i < |Quoted(f)| && Quoted(f)[i] == NEWLINE ==> Quotes(Quoted(f)[..i]) % 2 == 1
  {
    if NeedsQuotes(f) {
      var d := Doubled(f);
      DoubledIsEven(f, |d|);
      assert d[..|d|] == d;
      QuotesConcat([QUOTE] + d, [QUOTE]);
      QuotesConcat([QUOTE], d);
      forall i | 0 <= i < |Quoted(f)| && Quoted(f)[i] == NEWLINE
        ensures Quotes(Quoted(f)[..i]) % 2 == 1
      {
        DoubledIsEven(f, i - 1);
        assert Quoted(f)[..i] == [QUOTE] + d[..i - 1];
        QuotesConcat([QUOTE], d[..i - 1]);
      }
    } else {
      NoQuotes(f);
      assert forall i :: 0 <= i < |f| ==> f[i] in f;
    }
  }

  lemma {:induction false} NoQuotes(f: string)
    requires QUOTE !in f
    ensures Quotes(f) == 0
  {
    if f != "" {
      assert f[0] in f;
      NoQuotes(f[1..]);
    }
  }

  /** Every newline of a written row is inside quotes, so the rows of a file are the lines between the others. */
  lemma {:induction false} NewlinesAreQuoted(row: seq<string>, i: nat)
    requires row != [] && i < |Line(row)| && Line(row)[i] == NEWLINE
    ensures Quotes(Line(row)[..i]) % 2 == 1
  {
    var q := Quoted(row[0]);
    QuotedIsEven(row[0]);
    if i < |q| {
      assert Line(row)[..i] == q[..i] && Line(row)[i] == q[i];
    } else {
      var rest := Line(row[1..]);
      assert Line(row) == q + [COMMA] + rest;
      NewlinesAreQuoted(row[1..], i - |q| - 1);
      assert Line(row)[..i] == q + [COMMA] + rest[..i - |q| - 1];
      QuotesConcat(q + [COMMA], rest[..i - |q| - 1]);
      QuotesConcat(q, [COMMA]);
    }
  }

  /** Trimming keeps a field exactly when it neither starts nor ends with a space character. */
  lemma TrimKeepsIff(s: string, space: Space)
    ensures Trim(s, space) == s <==> s == "" || (!space(s[0]) && !space(s[|s| - 1]))
  {
    TrimStartShrinks(s, space);
    TrimEndShrinks(TrimStart(s, space), space);
  }

  lemma {:induction false} TrimStartShrinks(s: string, space: Space)
    ensures |TrimStart(s, space)| <= |s|
    ensures s != "" && space(s[0]) ==> |TrimStart(s, space)| < |s|
  {
    if s != "" && space(s[0]) {
      TrimStartShrinks(s[1..], space);
    }
  }

  lemma {:induction false} TrimEndShrinks(s: string, space: Space)
    ensures |TrimEnd(s, space)| <= |s|
    ensures s != "" && space(s[|s| - 1]) ==> |TrimEnd(s, space)| < |s|
  {
    if s != "" && space(s[|s| - 1]) {
      TrimEndShrinks(s[..|s| - 1], space);
    }
  }

  /** So the fields come back unchanged exactly when none has a space character at either end. */
  lemma RowUnchangedIff(row: seq<string>, space: Space)
    requires row != []
    ensures Fields(Line(row), "", false, space) == row
      <==> forall i :: 0 <= i < |row| ==> row[i] == "" || (!space(row[i][0]) && !space(row[i][|row[i]| - 1]))
  {
    RowReadsBack(row, space);
    forall i | 0 <= i < |row|
      ensures Trimmed(row, space)[i] == row[i] <==> row[i] == "" || (!space(row[i][0]) && !space(row[i][|row[i]| - 1]))
    {
      TrimKeepsIff(row[i], space);
    }
    if forall i :: 0 <= i < |row| ==> Trimmed(row, space)[i] == row[i] {
      assert Trimmed(row, space) == row;
    }
  }
}
