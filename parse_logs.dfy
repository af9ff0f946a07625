/**
  The log scanner: walk the lines of a structured log from the last to the
  first, keep the Error/Warning records whose message template mentions
  "Spotify", print each kept record (and a preview of its exception), and
  stop after ten kept records.

  The JSON parser is a parameter (`parse`), so the selection is proved for
  every parser: a line it maps to `None` is a line `json.loads` rejects.
*/
module ParseLogs {
  import opened Wrappers

  /** The scan stops once this many records have been kept. */
  const MaxRecords: nat := 10
  /** Number of characters of the exception text that are printed. */
  const ExceptionPreview: nat := 200
  /** The keyword a record's message template must contain. */
  const Keyword: string := "Spotify"
  /** The raw severity markers the pre-filter looks for in the unparsed line. */
  const ErrorMarker: string := "\"@l\":\"Error\""
  const WarningMarker: string := "\"@l\":\"Warning\""
  /** Text printed before the exception preview, and after it. */
  const ExceptionLead: string := "   Exception: "
  const ExceptionTail: string := "..."

  /**
    One parsed log record, in the compact JSON layout: `@t` timestamp,
    `@l` level, `@mt` message template, `@x` exception text. Every field
    may be absent from the JSON object.
  */
  datatype Entry = Entry(
    timestamp: Option<string>,
    level: Option<string>,
    template: Option<string>,
    exception: Option<string>)

  /** The JSON decoder of one line: `None` when it raises. */
  type Parser = string -> Option<Entry>

  /** A kept record together with the index of the line it came from. */
  datatype Hit = Hit(line: nat, entry: Entry)

  // ---------------------------------------------------------------------
  // Text helpers
  // ---------------------------------------------------------------------

  /** Python's `pat in s` on strings: `s` has `pat` as a prefix of one of its suffixes. */
  predicate Contains(s: string, pat: string)
    decreases |s|
  {
    pat <= s || (s != [] && Contains(s[1..], pat))
  }

  /** `pat` occurs at some position of `s`: the meaning of Python's `pat in s`. */
  ghost predicate Occurs(s: string, pat: string) {
    exists i :: 0 <= i <= |s| && pat <= s[i..]
  }

  /** `Contains` finds `pat` exactly when `pat` occurs at some position of `s`. */
  lemma {:induction false} ContainsIff(s: string, pat: string)
    ensures Contains(s, pat) <==> Occurs(s, pat)
    decreases |s|
  {
    if s == [] {
      assert forall i :: 0 <= i <= |s| ==> s[i..] == s;
    } else {
      ContainsIff(s[1..], pat);
      assert Occurs(s[1..], pat) <==> exists i :: 0 <= i <= |s| - 1 && pat <= s[1..][i..];
      if pat <= s {
        assert s[0..] == s;
      } else if Contains(s[1..], pat) {
        var i :| 0 <= i <= |s| - 1 && pat <= s[1..][i..];
        assert s[1..][i..] == s[i + 1..];
      }
      if exists i :: 0 <= i <= |s| && pat <= s[i..] {
        var i :| 0 <= i <= |s| && pat <= s[i..];
        if i == 0 {
          assert s[i..] == s;
        } else {
          assert s[1..][i - 1..] == s[i..];
          assert Contains(s[1..], pat);
        }
      }
    }
  }

  function Min(a: nat, b: nat): nat { if a <= b then a else b }

  /** Python's slice `s[:n]` for `n >= 0`. */
  function Prefix<T>(s: seq<T>, n: nat): (r: seq<T>)
    ensures |r| == Min(n, |s|)
    ensures r <= s
  {
    if |s| <= n then s else s[..n]
  }

  /** Python's `reversed`: the same elements, last one first. */
  function Reversed<T>(s: seq<T>): (r: seq<T>)
    ensures |r| == |s|
    ensures forall k :: 0 <= k < |s| ==> r[k] == s[|s| - 1 - k]
  {
    if s == [] then [] else Reversed(s[1..]) + [s[0]]
  }

  lemma ReversedAppend<T>(a: seq<T>, b: seq<T>)
    ensures Reversed(a + b) == Reversed(b) + Reversed(a)
  {
  }

  // ---------------------------------------------------------------------
  // The selection rule for one line
  // ---------------------------------------------------------------------

  /** The message template, `entry.get('@mt', '')`: the empty string when `@mt` is absent. */
  function Template(e: Entry): string {
    e.template.GetOr("")
  }

  /** The cheap check on the raw, unparsed text of the line. */
  predicate PassesPrefilter(line: string) {
    Contains(line, ErrorMarker) || Contains(line, WarningMarker)
  }

  /** A line is kept when it passes the pre-filter, parses, and its template has the keyword. */
  predicate Qualifies(parse: Parser, line: string) {
    PassesPrefilter(line) && parse(line).Some? && Contains(Template(parse(line).value), Keyword)
  }

  /**
    A record without `@mt` has the empty template, which cannot hold the
    keyword: such a line is never kept, whatever its severity.
  */
  lemma NoTemplateIsRejected(parse: Parser, line: string)
    requires parse(line).Some? && parse(line).value.template.None?
    ensures !Qualifies(parse, line)
  {
  }

  /** The pre-filter holds exactly when one of the two severity markers occurs in the raw line. */
  lemma PrefilterIff(line: string)
    ensures PassesPrefilter(line) <==> Occurs(line, ErrorMarker) || Occurs(line, WarningMarker)
  {
    ContainsIff(line, ErrorMarker);
    ContainsIff(line, WarningMarker);
  }

  /**
    A line qualifies exactly when a severity marker occurs in its raw text,
    it decodes, and the keyword occurs in the decoded template.
  */
  lemma QualifiesIff(parse: Parser, line: string)
    ensures Qualifies(parse, line) <==>
      (Occurs(line, ErrorMarker) || Occurs(line, WarningMarker))
      && parse(line).Some? && Occurs(Template(parse(line).value), Keyword)
  {
    PrefilterIff(line);
    if parse(line).Some? {
      ContainsIff(Template(parse(line).value), Keyword);
    }
  }

  // ---------------------------------------------------------------------
  // What is printed for a kept record
  // ---------------------------------------------------------------------

  /** The text of a field fetched with `entry.get(key)`: the string, or "None" when absent. */
  function Show(v: Option<string>): string {
    match v
    case Some(s) => s
    case None => "None"
  }

  /** The line `[timestamp] level: template`. */
  function RecordLine(e: Entry): string {
    "[" + Show(e.timestamp) + "] " + Show(e.level) + ": " + Template(e)
  }

  /** Where the timestamp, the level and the template sit in the record line. */
  lemma RecordLineParts(e: Entry)
    ensures var r, t, l, m := RecordLine(e), Show(e.timestamp), Show(e.level), Template(e);
      |r| == |t| + |l| + |m| + 5
      && r[0] == '[' && r[1..1 + |t|] == t && r[1 + |t|..3 + |t|] == "] "
      && r[3 + |t|..3 + |t| + |l|] == l && r[3 + |t| + |l|..5 + |t| + |l|] == ": "
      && r[5 + |t| + |l|..] == m
  {
  }

  /** The lead, the first 200 characters of the exception text, and "...". */
  function ExceptionLine(x: string): (r: string)
    ensures |r| == |ExceptionLead| + Min(ExceptionPreview, |x|) + |ExceptionTail|
    ensures ExceptionLead <= r
    ensures r[|ExceptionLead|..|ExceptionLead| + Min(ExceptionPreview, |x|)] == x[..Min(ExceptionPreview, |x|)]
    ensures r[|r| - |ExceptionTail|..] == ExceptionTail
  {
    var shown := Prefix(x, ExceptionPreview);
    assert shown == x[..Min(ExceptionPreview, |x|)];
    ExceptionLead + shown + ExceptionTail
  }

  /** The printed lines for one kept record: its record line, then its exception line if it has one. */
  function Render(e: Entry): (r: seq<string>)
    ensures |r| == if e.exception.Some? then 2 else 1
    ensures r[0] == RecordLine(e)
    ensures e.exception.Some? ==> r[1] == ExceptionLine(e.exception.value)
  {
    [RecordLine(e)] + match e.exception
                      case Some(x) => [ExceptionLine(x)]
                      case None => []
  }

  /** Everything printed for a sequence of kept records, in order. */
  function Emitted(es: seq<Entry>): seq<string> {
    if es == [] then [] else Emitted(es[..|es| - 1]) + Render(es[|es| - 1])
  }

  /** Each kept record prints one or two lines. */
  lemma {:induction false} EmittedLength(es: seq<Entry>)
    ensures |es| <= |Emitted(es)| <= 2 * |es|
    decreases |es|
  {
    if es != [] {
      EmittedLength(es[..|es| - 1]);
    }
  }

  lemma {:induction false} EmittedAppend(a: seq<Entry>, b: seq<Entry>)
    ensures Emitted(a + b) == Emitted(a) + Emitted(b)
    decreases |b|
  {
    if b == [] {
      assert a + b == a;
    } else {
      var b', e := b[..|b| - 1], b[|b| - 1];
      assert (a + b)[..|a + b| - 1] == a + b';
      assert (a + b)[|a + b| - 1] == e;
      EmittedAppend(a, b');
      calc {
        Emitted(a + b);
        Emitted(a + b') + Render(e);
        Emitted(a) + Emitted(b') + Render(e);
        Emitted(a) + (Emitted(b') + Render(e));
      }
    }
  }

  // ---------------------------------------------------------------------
  // The selection over the whole file
  // ---------------------------------------------------------------------

  /**
    The qualifying lines among `lines[lo..]`, most recent first: exactly
    what the reversed scan has met once it has examined every line down
    to index `lo`.
  */
  function HitsFrom(parse: Parser, lines: seq<string>, lo: nat): (r: seq<Hit>)
    requires lo <= |lines|
    ensures |r| <= |lines| - lo
    ensures forall k :: 0 <= k < |r| ==> lo <= r[k].line < |lines|
    decreases |lines| - lo
  {
    if lo == |lines| then []
    else HitsFrom(parse, lines, lo + 1)
         + if Qualifies(parse, lines[lo]) then [Hit(lo, parse(lines[lo]).value)] else []
  }

  /** The records the scan keeps: the first ten hits of the reversed file. */
  function Selection(parse: Parser, lines: seq<string>): (r: seq<Hit>)
    ensures |r| <= MaxRecords && |r| <= |lines|
    ensures forall k :: 0 <= k < |r| ==> r[k].line < |lines|
  {
    Prefix(HitsFrom(parse, lines, 0), MaxRecords)
  }

  function Entries(hs: seq<Hit>): seq<Entry> {
    seq(|hs|, k requires 0 <= k < |hs| => hs[k].entry)
  }

  /** The lines the scan prints after its two headings. */
  function Output(parse: Parser, lines: seq<string>): (r: seq<string>)
    ensures |Selection(parse, lines)| <= |r| <= 2 * |Selection(parse, lines)| <= 2 * MaxRecords
  {
    EmittedLength(Entries(Selection(parse, lines)));
    Emitted(Entries(Selection(parse, lines)))
  }

  /** Each hit names a qualifying line at or after `lo` and the record that line parses to. */
  predicate HitsQualify(parse: Parser, lines: seq<string>, lo: nat, hs: seq<Hit>) {
    forall k :: 0 <= k < |hs| ==>
      lo <= hs[k].line < |lines| && Qualifies(parse, lines[hs[k].line])
      && parse(lines[hs[k].line]) == Some(hs[k].entry)
  }

  /** The hits come in strictly decreasing line order, i.e. in reverse file order. */
  predicate Descending(hs: seq<Hit>) {
    forall k1, k2 :: 0 <= k1 < k2 < |hs| ==> hs[k1].line > hs[k2].line
  }

  /** Every hit is a qualifying line at or after `lo`, and hits come in reverse file order. */
  lemma {:induction false} HitsFromSound(parse: Parser, lines: seq<string>, lo: nat)
    requires lo <= |lines|
    ensures HitsQualify(parse, lines, lo, HitsFrom(parse, lines, lo))
    ensures Descending(HitsFrom(parse, lines, lo))
    decreases |lines| - lo
  {
    if lo < |lines| {
      HitsFromSound(parse, lines, lo + 1);
      var hs, rest := HitsFrom(parse, lines, lo), HitsFrom(parse, lines, lo + 1);
      var last := if Qualifies(parse, lines[lo]) then [Hit(lo, parse(lines[lo]).value)] else [];
      assert hs == rest + last;
      forall k | 0 <= k < |hs|
        ensures lo <= hs[k].line < |lines| && Qualifies(parse, lines[hs[k].line])
        && parse(lines[hs[k].line]) == Some(hs[k].entry)
        ensures k < |rest| ==> hs[k] == rest[k] && hs[k].line > lo
      {
        if k < |rest| {
          assert hs[k] == rest[k];
        } else {
          assert hs[k] == last[0];
        }
      }
    }
  }

  /** Every qualifying line at or after `lo` is a hit. */
  lemma {:induction false} HitsFromComplete(parse: Parser, lines: seq<string>, lo: nat)
    requires lo <= |lines|
    ensures forall j :: lo <= j < |lines| && Qualifies(parse, lines[j]) ==>
      Hit(j, parse(lines[j]).value) in HitsFrom(parse, lines, lo)
    decreases |lines| - lo
  {
    if lo < |lines| {
      HitsFromComplete(parse, lines, lo + 1);
    }
  }

  /** Scanning further back only appends: the hits from `mid` are a prefix of the hits from `lo`. */
  lemma {:induction false} HitsFromExtends(parse: Parser, lines: seq<string>, lo: nat, mid: nat)
    requires lo <= mid <= |lines|
    ensures HitsFrom(parse, lines, mid) <= HitsFrom(parse, lines, lo)
    decreases mid - lo
  {
    if lo < mid {
      HitsFromExtends(parse, lines, lo + 1, mid);
    }
  }

  /**
    At most ten records are selected; each comes from a line that passes the
    raw pre-filter, parses to exactly that record, and whose template holds
    the keyword; the selected lines are in reverse file order.
  */
  lemma SelectionSound(parse: Parser, lines: seq<string>)
    ensures |Selection(parse, lines)| <= MaxRecords
    ensures HitsQualify(parse, lines, 0, Selection(parse, lines))
    ensures Descending(Selection(parse, lines))
  {
    var hs, sel := HitsFrom(parse, lines, 0), Selection(parse, lines);
    HitsFromSound(parse, lines, 0);
    assert sel == hs[..|sel|];
  }

  /**
    Nothing qualifying is skipped before the cap: a qualifying line that is
    not selected lies before (earlier in the file than) all ten selected ones.
    In particular, with fewer than ten selected, every qualifying line is selected.
  */
  lemma SelectionMaximal(parse: Parser, lines: seq<string>)
    ensures forall j :: 0 <= j < |lines| && Qualifies(parse, lines[j]) ==>
      Hit(j, parse(lines[j]).value) in Selection(parse, lines)
      || (|Selection(parse, lines)| == MaxRecords && j < Selection(parse, lines)[MaxRecords - 1].line)
    ensures |Selection(parse, lines)| < MaxRecords ==>
      forall j :: 0 <= j < |lines| && Qualifies(parse, lines[j]) ==>
        Hit(j, parse(lines[j]).value) in Selection(parse, lines)
  {
    var hs, sel := HitsFrom(parse, lines, 0), Selection(parse, lines);
    HitsFromSound(parse, lines, 0);
    HitsFromComplete(parse, lines, 0);
    forall j | 0 <= j < |lines| && Qualifies(parse, lines[j])
      ensures Hit(j, parse(lines[j]).value) in sel || (|sel| == MaxRecords && j < sel[MaxRecords - 1].line)
    {
      var k :| 0 <= k < |hs| && hs[k] == Hit(j, parse(lines[j]).value);
      assert sel == hs[..|sel|];
      if k < MaxRecords {
        assert sel[k] == hs[k];
      } else {
        assert sel[MaxRecords - 1] == hs[MaxRecords - 1];
        assert hs[MaxRecords - 1].line > hs[k].line;
      }
    }
  }

  /**
    The severity test is on the raw text, not on the parsed level: a line
    with a repeated `@l` key passes the pre-filter on its first value, while
    the decoder keeps the last one, and the record is selected with level
    "Information".
  */
  lemma SeverityIsCheckedOnRawText(parse: Parser, e: Entry)
    requires e == Entry(None, Some("Information"), Some("Spotify"), None)
    requires parse(RepeatedLevelLine) == Some(e)
    ensures Selection(parse, [RepeatedLevelLine]) == [Hit(0, e)]
  {
    var line := RepeatedLevelLine;
    assert line[1..] == ErrorMarker + RepeatedLevelRest;
    assert Contains(line[1..], ErrorMarker);
    assert Contains("Spotify", Keyword);
    assert Qualifies(parse, line);
    assert HitsFrom(parse, [line], 0) == [Hit(0, e)];
  }

  const RepeatedLevelRest: string := ",\"@l\":\"Information\",\"@mt\":\"Spotify\"}"
  /** `{"@l":"Error","@l":"Information","@mt":"Spotify"}` */
  const RepeatedLevelLine: string := "{" + ErrorMarker + RepeatedLevelRest

  /** The line numbers of a run of hits, in order. */
  function LineNumbers(hs: seq<Hit>): seq<nat> {
    seq(|hs|, k requires 0 <= k < |hs| => hs[k].line)
  }

  /**
    Two decoders agree on a line when both fail, or both succeed with the
    same message template; the level, timestamp and exception may differ.
  */
  predicate AgreeOnTemplate(d1: Option<Entry>, d2: Option<Entry>) {
    d1.Some? == d2.Some? && (d1.Some? ==> Template(d1.value) == Template(d2.value))
  }

  lemma {:induction false} HitsFromIgnoresOtherFields(p1: Parser, p2: Parser, lines: seq<string>, lo: nat)
    requires lo <= |lines|
    requires forall k :: 0 <= k < |lines| ==> AgreeOnTemplate(p1(lines[k]), p2(lines[k]))
    ensures LineNumbers(HitsFrom(p1, lines, lo)) == LineNumbers(HitsFrom(p2, lines, lo))
    decreases |lines| - lo
  {
    if lo < |lines| {
      HitsFromIgnoresOtherFields(p1, p2, lines, lo + 1);
      assert AgreeOnTemplate(p1(lines[lo]), p2(lines[lo]));
      assert Qualifies(p1, lines[lo]) == Qualifies(p2, lines[lo]);
      var h1, h2 := HitsFrom(p1, lines, lo), HitsFrom(p2, lines, lo);
      forall k | 0 <= k < |h1| ensures k < |h2| && h1[k].line == h2[k].line {
        if k < |HitsFrom(p1, lines, lo + 1)| {
          assert LineNumbers(HitsFrom(p1, lines, lo + 1))[k] == LineNumbers(HitsFrom(p2, lines, lo + 1))[k];
        }
      }
    }
  }

  /**
    Which lines are selected depends only on the raw text, on whether the
    line decodes, and on its template: the decoded level in particular is
    never consulted.
  */
  lemma SelectionIgnoresOtherFields(p1: Parser, p2: Parser, lines: seq<string>)
    requires forall k :: 0 <= k < |lines| ==> AgreeOnTemplate(p1(lines[k]), p2(lines[k]))
    ensures LineNumbers(Selection(p1, lines)) == LineNumbers(Selection(p2, lines))
  {
    HitsFromIgnoresOtherFields(p1, p2, lines, 0);
    var h1, h2 := HitsFrom(p1, lines, 0), HitsFrom(p2, lines, 0);
    assert |h1| == |h2|;
    var s1, s2 := Selection(p1, lines), Selection(p2, lines);
    forall k | 0 <= k < |s1| ensures s1[k].line == s2[k].line {
      assert s1[k] == h1[k] && s2[k] == h2[k];
      assert LineNumbers(h1)[k] == LineNumbers(h2)[k];
    }
  }

  // ---------------------------------------------------------------------
  // Reference definition: filter the reversed file, keep the first ten
  // ---------------------------------------------------------------------

  /** The record of one line as a one-element sequence when it qualifies, else empty. */
  function Keep(parse: Parser, line: string): seq<Entry> {
    if Qualifies(parse, line) then [parse(line).value] else []
  }

  /** The records of the qualifying lines of `s`, in the order of `s`. */
  function Filter(parse: Parser, s: seq<string>): (r: seq<Entry>)
    ensures |r| <= |s|
    ensures forall e :: e in r ==> exists x :: x in s && Qualifies(parse, x) && parse(x) == Some(e)
  {
    if s == [] then [] else Keep(parse, s[0]) + Filter(parse, s[1..])
  }

  lemma {:induction false} FilterAppend(parse: Parser, a: seq<string>, b: seq<string>)
    ensures Filter(parse, a + b) == Filter(parse, a) + Filter(parse, b)
  {
    if a == [] {
      assert a + b == b;
    } else {
      assert (a + b)[0] == a[0];
      assert (a + b)[1..] == a[1..] + b;
      FilterAppend(parse, a[1..], b);
      assert Filter(parse, a + b) == Keep(parse, a[0]) + (Filter(parse, a[1..]) + Filter(parse, b));
    }
  }

  lemma {:induction false} EntriesOfHitsFrom(parse: Parser, lines: seq<string>, lo: nat)
    requires lo <= |lines|
    ensures Entries(HitsFrom(parse, lines, lo)) == Filter(parse, Reversed(lines[lo..]))
    decreases |lines| - lo
  {
    if lo < |lines| {
      var x := lines[lo];
      assert lines[lo..] == [x] + lines[lo + 1..];
      ReversedAppend([x], lines[lo + 1..]);
      assert Reversed([x]) == [x];
      FilterAppend(parse, Reversed(lines[lo + 1..]), [x]);
      EntriesOfHitsFrom(parse, lines, lo + 1);
      assert Filter(parse, [x]) == Keep(parse, x) by {
        assert [x][1..] == [];
      }
      var rest := HitsFrom(parse, lines, lo + 1);
      var last := if Qualifies(parse, x) then [Hit(lo, parse(x).value)] else [];
      assert Entries(rest + last) == Entries(rest) + Keep(parse, x);
    }
  }

  /** The selection is "the first up-to-ten qualifying records of `reversed(lines)`". */
  lemma SelectionOfReversed(parse: Parser, lines: seq<string>)
    ensures Entries(Selection(parse, lines)) == Prefix(Filter(parse, Reversed(lines)), MaxRecords)
  {
    EntriesOfHitsFrom(parse, lines, 0);
    assert lines[0..] == lines;
  }

  /**
    A line that does not qualify (fails the pre-filter, fails to parse, or
    lacks the keyword) has no effect on what is printed: removing it leaves
    the output unchanged. It is neither counted nor stops the scan.
  */
  lemma RejectedLineIsInert(parse: Parser, lines: seq<string>, j: nat)
    requires j < |lines| && !Qualifies(parse, lines[j])
    ensures Entries(Selection(parse, lines)) == Entries(Selection(parse, lines[..j] + lines[j + 1..]))
    ensures |Selection(parse, lines)| == |Selection(parse, lines[..j] + lines[j + 1..])|
    ensures Output(parse, lines) == Output(parse, lines[..j] + lines[j + 1..])
  {
    var a, x, b := lines[..j], lines[j], lines[j + 1..];
    assert lines == (a + [x]) + b;
    ReversedAppend(a + [x], b);
    ReversedAppend(a, [x]);
    ReversedAppend(a, b);
    assert Reversed([x]) == [x];
    assert Filter(parse, [x]) == [] by {
      assert [x][1..] == [];
    }
    calc {
      Filter(parse, Reversed(lines));
      Filter(parse, Reversed(b) + ([x] + Reversed(a)));
      { FilterAppend(parse, Reversed(b), [x] + Reversed(a));
        FilterAppend(parse, [x], Reversed(a)); }
      Filter(parse, Reversed(b)) + Filter(parse, Reversed(a));
      { FilterAppend(parse, Reversed(b), Reversed(a)); }
      Filter(parse, Reversed(a + b));
    }
    SelectionOfReversed(parse, lines);
    SelectionOfReversed(parse, a + b);
  }

  /** A line the parser rejects is skipped silently: the output is as if it were not there. */
  lemma UnparseableLineIsSkipped(parse: Parser, lines: seq<string>, j: nat)
    requires j < |lines| && parse(lines[j]).None?
    ensures |Selection(parse, lines)| == |Selection(parse, lines[..j] + lines[j + 1..])|
    ensures Output(parse, lines) == Output(parse, lines[..j] + lines[j + 1..])
  {
    RejectedLineIsInert(parse, lines, j);
  }

  /**
    One more line of the reversed scan: a line that does not qualify leaves
    the hits as they were; one that qualifies adds one hit and its printed lines.
  */
  lemma ScanStep(parse: Parser, lines: seq<string>, i: nat)
    requires 0 < i <= |lines|
    ensures !Qualifies(parse, lines[i - 1]) ==> HitsFrom(parse, lines, i - 1) == HitsFrom(parse, lines, i)
    ensures Qualifies(parse, lines[i - 1]) ==>
      HitsFrom(parse, lines, i - 1) == HitsFrom(parse, lines, i) + [Hit(i - 1, parse(lines[i - 1]).value)]
      && Emitted(Entries(HitsFrom(parse, lines, i - 1)))
         == Emitted(Entries(HitsFrom(parse, lines, i))) + Render(parse(lines[i - 1]).value)
  {
    if Qualifies(parse, lines[i - 1]) {
      var before := Entries(HitsFrom(parse, lines, i));
      var e := parse(lines[i - 1]).value;
      assert Entries(HitsFrom(parse, lines, i - 1)) == before + [e];
      assert (before + [e])[..|before|] == before;
    }
  }

  // ---------------------------------------------------------------------
  // The scan loop
  // ---------------------------------------------------------------------

  /**
    Where the scan ends: having examined every line, or with ten hits, the
    hits collected so far are the selection.
  */
  lemma ScanDone(parse: Parser, lines: seq<string>, i: nat)
    requires i <= |lines| && |HitsFrom(parse, lines, i)| <= MaxRecords
    requires i == 0 || |HitsFrom(parse, lines, i)| == MaxRecords
    ensures Selection(parse, lines) == HitsFrom(parse, lines, i)
    ensures Output(parse, lines) == Emitted(Prefix(Filter(parse, Reversed(lines)), MaxRecords))
  {
    HitsFromExtends(parse, lines, 0, i);
    SelectionOfReversed(parse, lines);
  }

  /**
    The body of the scan loop for one line: what it prints, and whether it
    counts the line. The record line is printed before the exception line.
  */
  method ScanLine(parse: Parser, line: string) returns (printed: seq<string>, kept: bool)
    ensures kept == Qualifies(parse, line)
    ensures printed == if kept then Render(parse(line).value) else []
  {
    printed, kept := [], false;
    if Contains(line, ErrorMarker) || Contains(line, WarningMarker) {
      match parse(line)
      case None =>
        // json.loads raised; the bare `except` skips the line
      case Some(entry) =>
        var msg := entry.template.GetOr("");
        if Contains(msg, Keyword) {
          printed := printed + [RecordLine(entry)];
          if Contains(msg, "Reason") {
            // the source's placeholder branch: it does nothing
          }
          if entry.exception.Some? {
            printed := printed + [ExceptionLine(entry.exception.value)];
          }
          kept := true;
        }
    }
  }

  /**
    The scan of parse_logs.py: the lines it prints after its two headings,
    and its final `count`. `stop` is the index of the oldest line it looks
    at: the lines before it are never examined.
  */
  method Scan(parse: Parser, lines: seq<string>) returns (out: seq<string>, count: nat, ghost stop: nat)
    ensures count == |Selection(parse, lines)| <= MaxRecords
    ensures out == Output(parse, lines)
    ensures out == Emitted(Prefix(Filter(parse, Reversed(lines)), MaxRecords))
    ensures stop <= |lines|
    ensures count < MaxRecords ==> stop == 0
    ensures count == MaxRecords ==> stop == Selection(parse, lines)[MaxRecords - 1].line
  {
    out, count := [], 0;
    var i := |lines|;
    while i > 0
      invariant 0 <= i <= |lines|
      invariant count == |HitsFrom(parse, lines, i)| <= MaxRecords
      invariant out == Emitted(Entries(HitsFrom(parse, lines, i)))
      invariant count == MaxRecords ==> HitsFrom(parse, lines, i)[MaxRecords - 1].line == i
    {
      if count >= MaxRecords {
        break;
      }
      ScanStep(parse, lines, i);
      var printed, kept := ScanLine(parse, lines[i - 1]);
      out := out + printed;
      if kept {
        count := count + 1;
      }
      i := i - 1;
    }
    ScanDone(parse, lines, i);
    stop := i;
  }
}
