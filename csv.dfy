/** `CsvHelper`: the flat-record format of import and export, over sequences
    of lines instead of files. */
module Csv {
  import opened Strings
  import opened Numbers
  import opened Dates
  import opened Domain

  const StudentHeader := "StudentID,FullName,Programme,Level,GPA,Email,PhoneNumber,DateAdded,Status"
  const ErrorHeader := "Row,Error"

  /** The number of `"` characters in `s`. */
  function QuoteCount(s: string): nat
  {
    if |s| == 0 then 0
    else QuoteCount(s[..|s| - 1]) + (if s[|s| - 1] == '"' then 1 else 0)
  }

  lemma {:induction false} QuoteCountAppend(a: string, b: string)
    ensures QuoteCount(a + b) == QuoteCount(a) + QuoteCount(b)
  {
    if |b| > 0 {
      assert (a + b)[..|a + b| - 1] == a + b[..|b| - 1];
      QuoteCountAppend(a, b[..|b| - 1]);
    } else {
      assert a + b == a;
    }
  }

  lemma {:induction false} QuoteFreeCount(s: string)
    requires '"' !in s
    ensures QuoteCount(s) == 0
  {
    if |s| > 0 {
      assert s[|s| - 1] in s;
      QuoteFreeCount(s[..|s| - 1]);
    }
  }

  lemma QuoteCountOne(c: char)
    ensures QuoteCount([c]) == if c == '"' then 1 else 0
  {
    assert [c][..0] == [];
  }

  /** `v.replace("\"", "\"\"")`. */
  function DoubleQuotes(v: string): (r: string)
    ensures QuoteCount(r) == 2 * QuoteCount(v)
    ensures '"' !in v ==> r == v
  {
    if |v| == 0 then ""
    else
      var p := v[..|v| - 1];
      var c := v[|v| - 1];
      assert '"' !in v ==> '"' !in p && c != '"' by {
        if '"' in p { var i :| 0 <= i < |p| && p[i] == '"'; assert v[i] == '"'; }
      }
      var tail := if c == '"' then "\"\"" else [c];
      var r := DoubleQuotes(p) + tail;
      QuoteCountAppend(DoubleQuotes(p), tail);
      QuoteCountOne(c);
      assert QuoteCount(tail) == 2 * QuoteCount([c]) by {
        if c == '"' { QuoteCountAppend("\"", "\""); QuoteCountOne('"'); assert tail == "\"" + "\""; }
      }
      assert '"' !in v ==> r == p + [c] == v;
      r
  }

  /** `esc(v)`: a field holding a comma or a quote is wrapped in quotes with
      its quotes doubled; any other field, the empty one included, is as is.
      An escaped field never leaves a quoted span open. */
  function Esc(v: string): (r: string)
    ensures QuoteCount(r) % 2 == 0
    ensures ',' !in v && '"' !in v ==> r == v
    ensures ',' in v || '"' in v ==> |r| >= 2 && r[0] == '"' && r[|r| - 1] == '"'
  {
    if ',' in v || '"' in v then
      QuoteCountAppend("\"", DoubleQuotes(v));
      QuoteCountAppend("\"" + DoubleQuotes(v), "\"");
      "\"" + DoubleQuotes(v) + "\""
    else
      QuoteFreeCount(v);
      v
  }

  /** The state of `parseLine` after reading `prefix`: inside a quoted span
      exactly when an odd number of quotes has been read. */
  predicate InQuotes(prefix: string)
  {
    QuoteCount(prefix) % 2 == 1
  }

  /** The fields of `line` before trimming: split at every comma outside a
      quoted span, every quote dropped. The last entry is the open field. */
  function RawFields(line: string): (r: seq<string>)
    ensures |r| >= 1
  {
    if |line| == 0 then [""]
    else
      var prefix := line[..|line| - 1];
      var c := line[|line| - 1];
      var p := RawFields(prefix);
      if c == '"' then p
      else if c == ',' && !InQuotes(prefix) then p + [""]
      else p[..|p| - 1] + [p[|p| - 1] + [c]]
  }

  function TrimAll(fs: seq<string>): (r: seq<string>)
    ensures |r| == |fs| && forall i :: 0 <= i < |fs| ==> r[i] == Trim(fs[i])
  {
    seq(|fs|, i requires 0 <= i < |fs| => Trim(fs[i]))
  }

  /** What `parseLine(line)` returns. */
  function ParsedFields(line: string): seq<string>
  {
    TrimAll(RawFields(line))
  }

  /** Reading one more character `c` after `x`: how the quote count and the
      raw fields change. */
  lemma QuoteCountSnoc(x: string, c: char)
    ensures QuoteCount(x + [c]) == QuoteCount(x) + (if c == '"' then 1 else 0)
  {
    assert (x + [c])[..|x|] == x;
  }

  lemma RawFieldsSnoc(x: string, c: char)
    ensures QuoteCount(x + [c]) == QuoteCount(x) + (if c == '"' then 1 else 0)
    ensures var p := RawFields(x);
      RawFields(x + [c]) ==
        if c == '"' then p
        else if c == ',' && !InQuotes(x) then p + [""]
        else p[..|p| - 1] + [p[|p| - 1] + [c]]
  {
    assert (x + [c])[..|x|] == x;
  }

  /** Reading `line[i]`: how the in-quote state and the raw fields change. */
  lemma ScanStep(line: string, i: nat)
    requires i < |line|
    ensures InQuotes(line[..i + 1]) == (if line[i] == '"' then !InQuotes(line[..i]) else InQuotes(line[..i]))
    ensures var p := RawFields(line[..i]);
      RawFields(line[..i + 1]) ==
        if line[i] == '"' then p
        else if line[i] == ',' && !InQuotes(line[..i]) then p + [""]
        else p[..|p| - 1] + [p[|p| - 1] + [line[i]]]
  {
    assert line[..i + 1] == line[..i] + [line[i]];
    RawFieldsSnoc(line[..i], line[i]);
  }

  /** `ScanStep` with the raw fields split into the finished ones and the open one. */
  lemma ScanSplit(line: string, i: nat, done: seq<string>, open: string, inQ: bool)
    requires i < |line|
    requires RawFields(line[..i]) == done + [open] && inQ == InQuotes(line[..i])
    ensures InQuotes(line[..i + 1]) == (if line[i] == '"' then !inQ else inQ)
    ensures RawFields(line[..i + 1]) ==
        if line[i] == '"' then done + [open]
        else if line[i] == ',' && !inQ then (done + [open]) + [""]
        else done + [open + [line[i]]]
  {
    ScanStep(line, i);
    var p := done + [open];
    assert p[..|p| - 1] == done;
  }

  lemma TrimAllSnoc(d: seq<string>, x: string)
    ensures TrimAll(d + [x]) == TrimAll(d) + [Trim(x)]
  {
  }

  /** `parseLine`: a character loop with an in-quote flag; a quote flips the
      flag and is dropped, a comma outside quotes ends the current field. */
  method ParseLine(line: string) returns (fields: seq<string>)
    ensures fields == ParsedFields(line)
  {
    fields := [];
    var sb := "";
    var inQ := false;
    ghost var done: seq<string> := [];
    var i := 0;
    while i < |line|
      invariant 0 <= i <= |line|
      invariant RawFields(line[..i]) == done + [sb]
      invariant inQ == InQuotes(line[..i])
      invariant fields == TrimAll(done)
    {
      var c := line[i];
      ScanSplit(line, i, done, sb, inQ);
      if c == '"' {
        inQ := !inQ;
      } else if c == ',' && !inQ {
        TrimAllSnoc(done, sb);
        fields := fields + [Trim(sb)];
        done := done + [sb];
        sb := "";
      } else {
        sb := sb + [c];
      }
      i := i + 1;
    }
    TrimAllSnoc(done, sb);
    fields := fields + [Trim(sb)];
    assert line[..i] == line;
  }

  /** The number of commas of `line` that lie outside quoted spans. */
  function SeparatorCount(line: string): nat
  {
    if |line| == 0 then 0
    else
      var prefix := line[..|line| - 1];
      SeparatorCount(prefix) + (if line[|line| - 1] == ',' && !InQuotes(prefix) then 1 else 0)
  }

  /** `parseLine` returns one more field than there are separating commas. */
  lemma {:induction false} FieldCount(line: string)
    ensures |ParsedFields(line)| == SeparatorCount(line) + 1
  {
    if |line| > 0 {
      FieldCount(line[..|line| - 1]);
    }
  }

  lemma {:induction false} RawFieldsQuoteFree(line: string)
    ensures forall k :: 0 <= k < |RawFields(line)| ==> '"' !in RawFields(line)[k]
  {
    if |line| > 0 {
      var prefix := line[..|line| - 1];
      var c := line[|line| - 1];
      RawFieldsQuoteFree(prefix);
      var p := RawFields(prefix);
      if c != '"' && !(c == ',' && !InQuotes(prefix)) {
        var last := p[|p| - 1] + [c];
        assert '"' !in p[|p| - 1];
        assert forall j :: 0 <= j < |last| ==> last[j] != '"' by {
          forall j | 0 <= j < |last| ensures last[j] != '"' {
            if j < |last| - 1 { assert last[j] == p[|p| - 1][j]; }
          }
        }
      }
    }
  }

  /** Every field `parseLine` returns is trimmed and holds no quote. */
  lemma FieldsAreClean(line: string)
    ensures forall k :: 0 <= k < |ParsedFields(line)| ==>
      IsTrimmed(ParsedFields(line)[k]) && '"' !in ParsedFields(line)[k]
  {
    RawFieldsQuoteFree(line);
    forall k | 0 <= k < |ParsedFields(line)|
      ensures '"' !in ParsedFields(line)[k]
    {
      if '"' in Trim(RawFields(line)[k]) {
        TrimChars(RawFields(line)[k], '"');
      }
    }
  }

  // The round trip of a line of escaped fields.

  /** A field that survives `esc` followed by `parseLine` unchanged. */
  predicate Clean(f: string)
  {
    IsTrimmed(f) && '"' !in f
  }

  function EscAll(fs: seq<string>): (r: seq<string>)
    ensures |r| == |fs| && forall i :: 0 <= i < |fs| ==> r[i] == Esc(fs[i])
  {
    seq(|fs|, i requires 0 <= i < |fs| => Esc(fs[i]))
  }

  /** After a comma read outside quotes, the in-quote state depends only on what follows. */
  lemma QuotesAfterComma(a: string, b: string)
    requires QuoteCount(a) % 2 == 0
    ensures InQuotes(a + [','] + b) == InQuotes(b)
  {
    var x := a + [','];
    QuoteCountSnoc(a, ',');
    QuoteCountAppend(x, b);
    EvenShift(QuoteCount(x), QuoteCount(b));
  }

  lemma EvenShift(m: int, q: int)
    requires m % 2 == 0
    ensures (m + q) % 2 == q % 2
  {
  }

  lemma ExtendLast(p: seq<string>, q: seq<string>, c: char)
    requires |q| >= 1
    ensures var pq := p + q;
      pq[..|pq| - 1] + [pq[|pq| - 1] + [c]] == p + (q[..|q| - 1] + [q[|q| - 1] + [c]])
  {
    var pq := p + q;
    assert pq[..|pq| - 1] == p + q[..|q| - 1];
  }

  lemma RawFieldsQuote(x: string)
    ensures RawFields(x + ['"']) == RawFields(x)
  {
    RawFieldsSnoc(x, '"');
  }

  lemma RawFieldsComma(x: string)
    requires !InQuotes(x)
    ensures RawFields(x + [',']) == RawFields(x) + [""]
  {
    RawFieldsSnoc(x, ',');
  }

  lemma RawFieldsExtend(x: string, c: char)
    requires c != '"' && (c == ',' ==> InQuotes(x))
    ensures var p := RawFields(x); RawFields(x + [c]) == p[..|p| - 1] + [p[|p| - 1] + [c]]
  {
    RawFieldsSnoc(x, c);
  }

  lemma {:induction false} RawFieldsAfterComma(a: string, b: string)
    requires QuoteCount(a) % 2 == 0
    ensures RawFields(a + [','] + b) == RawFields(a) + RawFields(b)
  {
    if |b| == 0 {
      RawFieldsComma(a);
      assert a + [','] + b == a + [','];
    } else {
      var b', c := b[..|b| - 1], b[|b| - 1];
      var x := a + [','] + b';
      assert a + [','] + b == x + [c];
      assert b' + [c] == b;
      RawFieldsAfterComma(a, b');
      var p, q := RawFields(a), RawFields(b');
      QuotesAfterComma(a, b');
      if c == '"' {
        RawFieldsQuote(x);
        RawFieldsQuote(b');
      } else if c == ',' && !InQuotes(b') {
        RawFieldsComma(x);
        RawFieldsComma(b');
        assert p + q + [""] == p + (q + [""]);
      } else {
        RawFieldsExtend(x, c);
        RawFieldsExtend(b', c);
        ExtendLast(p, q, c);
      }
    }
  }

  lemma {:induction false} RawFieldsPlain(v: string)
    requires ',' !in v && '"' !in v
    ensures RawFields(v) == [v]
  {
    if |v| > 0 {
      var p, c := v[..|v| - 1], v[|v| - 1];
      assert v == p + [c];
      assert c in v;
      assert ',' !in p && '"' !in p by {
        forall j | 0 <= j < |p| ensures p[j] != ',' && p[j] != '"' { assert p[j] == v[j]; }
      }
      RawFieldsPlain(p);
      RawFieldsExtend(p, c);
    }
  }

  /** `v` with every quote removed: what `parseLine` keeps of an escaped field. */
  function Unquoted(v: string): string
  {
    if |v| == 0 then ""
    else
      var p := Unquoted(v[..|v| - 1]);
      if v[|v| - 1] == '"' then p else p + [v[|v| - 1]]
  }

  lemma {:induction false} UnquotedFree(v: string)
    requires '"' !in v
    ensures Unquoted(v) == v
  {
    if |v| > 0 {
      var p := v[..|v| - 1];
      assert v[|v| - 1] in v;
      assert '"' !in p by {
        forall j | 0 <= j < |p| ensures p[j] != '"' { assert p[j] == v[j]; }
      }
      UnquotedFree(p);
      assert p + [v[|v| - 1]] == v;
    }
  }

  /** A doubled quote inside a quoted span: the span stays open, nothing is kept. */
  lemma DoubledQuoteStep(w: string, f: string)
    requires InQuotes(w) && RawFields(w) == [f]
    ensures InQuotes(w + "\"\"") && RawFields(w + "\"\"") == [f]
  {
    RawFieldsSnoc(w, '"');
    RawFieldsSnoc(w + ['"'], '"');
    assert w + "\"\"" == (w + ['"']) + ['"'];
  }

  /** Any other character inside a quoted span, a comma included, is kept. */
  lemma QuotedCharStep(w: string, f: string, c: char)
    requires InQuotes(w) && RawFields(w) == [f] && c != '"'
    ensures InQuotes(w + [c]) && RawFields(w + [c]) == [f + [c]]
  {
    RawFieldsSnoc(w, c);
  }

  /** After an opening quote, the doubled-quote form of `v` is one open field
      holding `v` without its quotes. */
  lemma {:induction false} RawFieldsInsideQuotes(v: string)
    ensures InQuotes(['"'] + DoubleQuotes(v))
    ensures RawFields(['"'] + DoubleQuotes(v)) == [Unquoted(v)]
  {
    if |v| == 0 {
      RawFieldsSnoc([], '"');
      assert ['"'] + DoubleQuotes(v) == [] + ['"'];
    } else {
      var p, c := v[..|v| - 1], v[|v| - 1];
      RawFieldsInsideQuotes(p);
      var w := ['"'] + DoubleQuotes(p);
      if c == '"' {
        assert ['"'] + DoubleQuotes(v) == w + "\"\"";
        DoubledQuoteStep(w, Unquoted(p));
      } else {
        assert ['"'] + DoubleQuotes(v) == w + [c];
        QuotedCharStep(w, Unquoted(p), c);
      }
    }
  }

  /** `parseLine` reads one escaped field back as that field without its quotes. */
  lemma RawFieldsOfEsc(v: string)
    ensures RawFields(Esc(v)) == [Unquoted(v)]
  {
    if ',' in v || '"' in v {
      var w := ['"'] + DoubleQuotes(v);
      assert Esc(v) == w + ['"'];
      RawFieldsInsideQuotes(v);
      RawFieldsSnoc(w, '"');
    } else {
      RawFieldsPlain(v);
      UnquotedFree(v);
    }
  }

  function UnquotedAll(fs: seq<string>): (r: seq<string>)
    ensures |r| == |fs| && forall i :: 0 <= i < |fs| ==> r[i] == Unquoted(fs[i])
  {
    seq(|fs|, i requires 0 <= i < |fs| => Unquoted(fs[i]))
  }

  lemma UnquotedAllSnoc(fs: seq<string>)
    requires |fs| >= 1
    ensures UnquotedAll(fs[..|fs| - 1]) + [Unquoted(fs[|fs| - 1])] == UnquotedAll(fs)
  {
  }

  lemma EvenAfterComma(a: string, b: string)
    requires QuoteCount(a) % 2 == 0 && QuoteCount(b) % 2 == 0
    ensures QuoteCount(a + [','] + b) % 2 == 0
  {
    RawFieldsSnoc(a, ',');
    QuoteCountAppend(a + [','], b);
  }

  lemma JoinEscStep(fs: seq<string>)
    requires |fs| >= 2
    ensures Join(EscAll(fs), ",") == Join(EscAll(fs[..|fs| - 1]), ",") + [','] + Esc(fs[|fs| - 1])
  {
    var es := EscAll(fs);
    assert es[..|es| - 1] == EscAll(fs[..|fs| - 1]);
  }

  lemma {:induction false} RawFieldsOfJoin(fs: seq<string>)
    requires |fs| >= 1
    ensures RawFields(Join(EscAll(fs), ",")) == UnquotedAll(fs)
    ensures QuoteCount(Join(EscAll(fs), ",")) % 2 == 0
  {
    if |fs| == 1 {
      RawFieldsOfEsc(fs[0]);
    } else {
      var fs' := fs[..|fs| - 1];
      RawFieldsOfJoin(fs');
      var j := Join(EscAll(fs'), ",");
      var e := Esc(fs[|fs| - 1]);
      JoinEscStep(fs);
      RawFieldsAfterComma(j, e);
      RawFieldsOfEsc(fs[|fs| - 1]);
      UnquotedAllSnoc(fs);
      EvenAfterComma(j, e);
    }
  }

  /** Escaping fields, joining them with commas and parsing the line gives
      each field back trimmed and with its quotes dropped. */
  lemma LineRoundTrip(fs: seq<string>)
    requires |fs| >= 1
    ensures ParsedFields(Join(EscAll(fs), ",")) == TrimAll(UnquotedAll(fs))
  {
    RawFieldsOfJoin(fs);
  }

  /** Trimmed, quote-free fields come back unchanged. */
  lemma CleanLineRoundTrip(fs: seq<string>)
    requires |fs| >= 1 && forall i :: 0 <= i < |fs| ==> Clean(fs[i])
    ensures ParsedFields(Join(EscAll(fs), ",")) == fs
  {
    LineRoundTrip(fs);
    forall i | 0 <= i < |fs| ensures Trim(Unquoted(fs[i])) == fs[i] {
      UnquotedFree(fs[i]);
      TrimTrimmed(fs[i]);
    }
  }

  lemma {:induction false} UnquotedHasNoQuote(v: string)
    ensures '"' !in Unquoted(v)
  {
    if |v| > 0 {
      var p := Unquoted(v[..|v| - 1]);
      UnquotedHasNoQuote(v[..|v| - 1]);
      if v[|v| - 1] != '"' {
        assert forall j :: 0 <= j < |p| ==> (p + [v[|v| - 1]])[j] == p[j];
      }
    }
  }

  /** A field holding a quote never survives: `esc` doubles the quote and
      `parseLine` drops both copies. */
  lemma QuoteIsLost(f: string)
    requires '"' in f
    ensures ParsedFields(Join(EscAll([f]), ",")) != [f]
  {
    LineRoundTrip([f]);
    UnquotedHasNoQuote(f);
    if Trim(Unquoted(f)) == f {
      TrimChars(Unquoted(f), '"');
    }
  }

  // The columns `exportStudents` formats itself.

  /** Text with no space, control character, comma or quote: `esc` leaves it
      alone and `parseLine` gives it back. */
  predicate PlainText(s: string)
  {
    forall i :: 0 <= i < |s| ==> s[i] > ' ' && s[i] != ',' && s[i] != '"'
  }

  lemma PlainIsClean(s: string)
    requires PlainText(s)
    ensures Clean(s) && Esc(s) == s
  {
  }

  lemma DigitsArePlain(s: string)
    requires AllDigits(s)
    ensures PlainText(s)
  {
  }

  lemma PlainConcat(a: string, b: string)
    requires PlainText(a) && PlainText(b)
    ensures PlainText(a + b)
  {
  }

  lemma IntTextIsPlain(n: int)
    ensures PlainText(IntToString(n))
  {
    if n < 0 {
      DigitsArePlain(NatToString(-n));
      PlainConcat("-", NatToString(-n));
    } else {
      DigitsArePlain(NatToString(n));
    }
  }

  lemma GpaTextIsPlain(x: real)
    ensures PlainText(Fixed2(x))
  {
    var ax := if x < 0.0 then -x else x;
    var h := (ax * 100.0 + 0.5).Floor;
    DigitsArePlain(NatToString(h / 100));
    DigitsArePlain(Digits2(h % 100));
    PlainConcat(NatToString(h / 100), ".");
    PlainConcat(NatToString(h / 100) + ".", Digits2(h % 100));
    if x < 0.0 {
      PlainConcat("-", Fixed2Unsigned(-x));
    }
  }

  lemma YearTextIsPlain(y: int)
    ensures PlainText(YearText(y))
  {
    if -1000 < y < 1000 {
      DigitsArePlain(Digits4(if y < 0 then -y else y));
      PlainConcat(if y < 0 then "-" else "", Digits4(if y < 0 then -y else y));
    } else {
      IntTextIsPlain(y);
      PlainConcat(if y > 9999 then "+" else "", IntToString(y));
    }
  }

  lemma DatePartIsPlain(n: int)
    ensures PlainText(DateField(n))
  {
    IntTextIsPlain(n);
    PlainConcat(if n < 10 then "-0" else "-", IntToString(n));
  }

  lemma DateTextIsPlain(d: Date)
    ensures PlainText(FormatDate(d))
  {
    YearTextIsPlain(d.year);
    DatePartIsPlain(d.month);
    DatePartIsPlain(d.day);
    PlainConcat(YearText(d.year), DateField(d.month));
    PlainConcat(YearText(d.year) + DateField(d.month), DateField(d.day));
  }

  lemma StatusTextIsPlain(st: Status)
    ensures PlainText(StatusName(st))
  {
  }

  // Reading and writing whole files, as sequences of lines.

  /** The lines `readCsv` parses: all but the first (the header), blank ones
      skipped, in order. */
  function DataLines(lines: seq<string>): seq<string>
  {
    if |lines| <= 1 then []
    else
      var last := lines[|lines| - 1];
      DataLines(lines[..|lines| - 1]) + (if IsBlank(last) then [] else [last])
  }

  /** The data lines are exactly the non-blank lines after the header. */
  lemma {:induction false} DataLinesMembers(lines: seq<string>)
    requires |lines| >= 1
    ensures forall l :: l in DataLines(lines) <==> l in lines[1..] && !IsBlank(l)
  {
    if |lines| > 1 {
      var p := lines[..|lines| - 1];
      DataLinesMembers(p);
      assert lines[1..] == p[1..] + [lines[|lines| - 1]];
    }
  }

  lemma DataLinesStep(lines: seq<string>, i: nat)
    requires i < |lines|
    ensures DataLines(lines[..i + 1]) ==
      if i == 0 || IsBlank(lines[i]) then DataLines(lines[..i]) else DataLines(lines[..i]) + [lines[i]]
  {
    assert lines[..i + 1][..i] == lines[..i];
  }

  function ParseAll(ls: seq<string>): (r: seq<seq<string>>)
    ensures |r| == |ls| && forall k :: 0 <= k < |ls| ==> r[k] == ParsedFields(ls[k])
  {
    if |ls| == 0 then [] else ParseAll(ls[..|ls| - 1]) + [ParsedFields(ls[|ls| - 1])]
  }

  lemma ParseAllSnoc(ls: seq<string>, l: string)
    ensures ParseAll(ls + [l]) == ParseAll(ls) + [ParsedFields(l)]
  {
    assert (ls + [l])[..|ls|] == ls;
  }

  /** `readCsv`: skips the header and every blank line, and parses the other lines in order. */
  method ReadCsv(lines: seq<string>) returns (rows: seq<seq<string>>)
    ensures rows == ParseAll(DataLines(lines))
  {
    rows := [];
    var first := true;
    var i := 0;
    while i < |lines|
      invariant 0 <= i <= |lines|
      invariant first <==> i == 0
      invariant rows == ParseAll(DataLines(lines[..i]))
    {
      var line := lines[i];
      DataLinesStep(lines, i);
      if first {
        first := false;
      } else if !IsBlank(line) {
        var fields := ParseLine(line);
        ReadStep(lines, i);
        rows := rows + [fields];
      }
      i := i + 1;
    }
    assert lines[..i] == lines;
  }

  /** A non-blank line after the header adds its fields to the parsed rows. */
  lemma ReadStep(lines: seq<string>, i: nat)
    requires 0 < i < |lines| && !IsBlank(lines[i])
    ensures ParseAll(DataLines(lines[..i + 1])) == ParseAll(DataLines(lines[..i])) + [ParsedFields(lines[i])]
  {
    DataLinesStep(lines, i);
    ParseAllSnoc(DataLines(lines[..i]), lines[i]);
  }

  /** The nine values of one exported student, in header order, before escaping. */
  function StudentColumns(s: StudentRecord): seq<string>
  {
    [s.studentId, s.fullName, s.programme, IntToString(s.level), Fixed2(s.gpa),
     s.email, s.phoneNumber, FormatDate(s.dateAdded), StatusName(s.status)]
  }

  /** One exported line: `%s,%s,%s,%d,%.2f,%s,%s,%s,%s`. Only the five text
      columns go through `escape`, yet the line is every column escaped, because
      the four formatted ones never hold a comma or a quote. */
  function StudentLine(s: StudentRecord): (r: string)
    ensures r == Join(EscAll(StudentColumns(s)), ",")
  {
    IntTextIsPlain(s.level);
    GpaTextIsPlain(s.gpa);
    DateTextIsPlain(s.dateAdded);
    StatusTextIsPlain(s.status);
    EscNine(s.studentId, s.fullName, s.programme, IntToString(s.level), Fixed2(s.gpa),
            s.email, s.phoneNumber, FormatDate(s.dateAdded), StatusName(s.status));
    Join([Esc(s.studentId), Esc(s.fullName), Esc(s.programme), IntToString(s.level), Fixed2(s.gpa),
          Esc(s.email), Esc(s.phoneNumber), FormatDate(s.dateAdded), StatusName(s.status)], ",")
  }

  /** Escaping nine columns leaves the plain ones as they are. */
  lemma EscNine(c0: string, c1: string, c2: string, c3: string, c4: string, c5: string, c6: string,
                c7: string, c8: string)
    requires PlainText(c3) && PlainText(c4) && PlainText(c7) && PlainText(c8)
    ensures EscAll([c0, c1, c2, c3, c4, c5, c6, c7, c8]) == [Esc(c0), Esc(c1), Esc(c2), c3, c4, Esc(c5), Esc(c6), c7, c8]
  {
    var a, b, c, d := [c0, c1, c2], [c3, c4], [c5, c6], [c7, c8];
    assert [c0, c1, c2, c3, c4, c5, c6, c7, c8] == a + b + c + d;
    EscAllAppend(a + b + c, d);
    EscAllAppend(a + b, c);
    EscAllAppend(a, b);
    EscThree(c0, c1, c2);
    EscTwo(c3, c4);
    EscTwo(c5, c6);
    EscTwo(c7, c8);
    PlainIsClean(c3);
    PlainIsClean(c4);
    PlainIsClean(c7);
    PlainIsClean(c8);
    assert [Esc(c0), Esc(c1), Esc(c2)] + [c3, c4] + [Esc(c5), Esc(c6)] + [c7, c8]
        == [Esc(c0), Esc(c1), Esc(c2), c3, c4, Esc(c5), Esc(c6), c7, c8];
  }

  lemma EscAllAppend(fs: seq<string>, gs: seq<string>)
    ensures EscAll(fs + gs) == EscAll(fs) + EscAll(gs)
  {
  }

  lemma EscThree(c0: string, c1: string, c2: string)
    ensures EscAll([c0, c1, c2]) == [Esc(c0), Esc(c1), Esc(c2)]
  {
  }

  lemma EscTwo(c0: string, c1: string)
    ensures EscAll([c0, c1]) == [Esc(c0), Esc(c1)]
  {
  }

  /** Every exported line splits into nine columns: the student's columns,
      each with its quotes dropped and trimmed. */
  lemma ExportedLineColumns(s: StudentRecord)
    ensures ParsedFields(StudentLine(s)) == TrimAll(UnquotedAll(StudentColumns(s)))
    ensures |ParsedFields(StudentLine(s))| == 9
  {
    LineRoundTrip(StudentColumns(s));
  }

  /** The exported line of a student with trimmed, quote-free text columns
      splits back into its nine columns. */
  lemma ExportedLineSplits(s: StudentRecord)
    requires Clean(s.studentId) && Clean(s.fullName) && Clean(s.programme)
    requires Clean(s.email) && Clean(s.phoneNumber)
    ensures ParsedFields(StudentLine(s)) == StudentColumns(s)
  {
    IntTextIsPlain(s.level);
    GpaTextIsPlain(s.gpa);
    DateTextIsPlain(s.dateAdded);
    StatusTextIsPlain(s.status);
    PlainIsClean(IntToString(s.level));
    PlainIsClean(Fixed2(s.gpa));
    PlainIsClean(FormatDate(s.dateAdded));
    PlainIsClean(StatusName(s.status));
    NineCleanColumns(s.studentId, s.fullName, s.programme, IntToString(s.level), Fixed2(s.gpa),
                     s.email, s.phoneNumber, FormatDate(s.dateAdded), StatusName(s.status));
  }

  /** Nine clean columns survive a line round trip. */
  lemma NineCleanColumns(c0: string, c1: string, c2: string, c3: string, c4: string, c5: string, c6: string,
                         c7: string, c8: string)
    requires Clean(c0) && Clean(c1) && Clean(c2) && Clean(c3) && Clean(c4)
    requires Clean(c5) && Clean(c6) && Clean(c7) && Clean(c8)
    ensures ParsedFields(Join(EscAll([c0, c1, c2, c3, c4, c5, c6, c7, c8]), ",")) == [c0, c1, c2, c3, c4, c5, c6, c7, c8]
  {
    CleanLineRoundTrip([c0, c1, c2, c3, c4, c5, c6, c7, c8]);
  }

  /** The exported lines of `ss`, one per student, in order. */
  function StudentLines(ss: seq<StudentRecord>): (r: seq<string>)
    ensures |r| == |ss|
  {
    if |ss| == 0 then [] else StudentLines(ss[..|ss| - 1]) + [StudentLine(ss[|ss| - 1])]
  }

  /** Line `k` of the export body is the line of student `k`. */
  lemma {:induction false} StudentLinesAt(ss: seq<StudentRecord>, k: nat)
    requires k < |ss|
    ensures StudentLines(ss)[k] == StudentLine(ss[k])
  {
    if k < |ss| - 1 {
      var p := ss[..|ss| - 1];
      StudentLinesAt(p, k);
      assert p[k] == ss[k];
    }
  }

  lemma StudentLinesSnoc(ss: seq<StudentRecord>, i: nat)
    requires i < |ss|
    ensures StudentLines(ss[..i + 1]) == StudentLines(ss[..i]) + [StudentLine(ss[i])]
  {
    assert ss[..i + 1][..i] == ss[..i];
  }

  /** `exportStudents`: the fixed header, then one line per student in input order. */
  method ExportStudents(students: seq<StudentRecord>) returns (lines: seq<string>)
    ensures lines == [StudentHeader] + StudentLines(students)
  {
    lines := [StudentHeader];
    for i := 0 to |students|
      invariant lines == [StudentHeader] + StudentLines(students[..i])
    {
      StudentLinesSnoc(students, i);
      SnocAssoc([StudentHeader], StudentLines(students[..i]), StudentLine(students[i]));
      lines := lines + [StudentLine(students[i])];
    }
    assert students[..|students|] == students;
  }

  /** `exportErrors`: the `Row,Error` header, then each error escaped, one per line. */
  method ExportErrors(errors: seq<string>) returns (lines: seq<string>)
    ensures lines == [ErrorHeader] + EscAll(errors)
  {
    lines := [ErrorHeader];
    for i := 0 to |errors|
      invariant lines == [ErrorHeader] + EscAll(errors[..i])
    {
      EscAllSnoc(errors, i);
      SnocAssoc([ErrorHeader], EscAll(errors[..i]), Esc(errors[i]));
      lines := lines + [Esc(errors[i])];
    }
    assert errors[..|errors|] == errors;
  }

  lemma SnocAssoc<T>(h: seq<T>, p: seq<T>, x: T)
    ensures h + p + [x] == h + (p + [x])
  {
  }

  lemma EscAllSnoc(fs: seq<string>, i: nat)
    requires i < |fs|
    ensures EscAll(fs[..i + 1]) == EscAll(fs[..i]) + [Esc(fs[i])]
  {
  }
}
