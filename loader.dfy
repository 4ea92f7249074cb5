/**
 The streaming loader `load_matches` of LoadUtils.py.

 The file is given as the sequence of its lines, each already decoded and
 parsed: `Parsed(rec)` for a line that `json.loads` turns into an object, `Bad`
 for one whose UTF-8 decoding or JSON parsing raises. `LoadMatches` is the loop
 itself; `LoadSpec` says what it returns, in terms of the records among the
 first `Examined` lines; the lemmas below state what that means.
 */
module Loader {
  import opened Values
  import opened Predicates

  datatype Line = Parsed(rec: Record) | Bad

  /** Python's loop variable `i` after the loop: never bound when the file has
      no lines. */
  datatype Index = Unbound | Bound(i: nat)

  datatype LoadError =
    | Malformed     // a line before the cutoff failed to decode or parse
    | UnboundIndex  // the verbose summary read `i`, which the loop never bound

  /** The loop's final state: the matching records, the number of predicate
      calls that raised, the value of `i`, and the line indices at which a
      progress mark was printed (none unless verbose). */
  datatype Loaded = Loaded(data: seq<Record>, unprocessable: nat, lastIndex: Index, ticks: seq<nat>)

  datatype Result = Success(loaded: Loaded) | Failure(error: LoadError)

  /** The value of `n_lines` that means "every line". */
  const Unbounded: int := -1

  // ---------------------------------------------------------------------------
  // How far the loop goes

  /** The number of lines the loop processes: it breaks when `i == n_lines`,
      which no negative `n_lines` ever meets. */
  function Examined(count: nat, nLines: int): (e: nat)
    ensures e <= count
    ensures 0 <= nLines < count ==> e == nLines
    ensures (nLines < 0 || count <= nLines) ==> e == count
  {
    if 0 <= nLines < count then nLines else count
  }

  /** The value of `i` when the loop ends: `n_lines` after the break, otherwise
      the index of the last line, and unbound for an empty file. */
  function LastIndex(count: nat, nLines: int): (r: Index)
    ensures r.Unbound? <==> count == 0
    ensures r.Bound? ==> r.i < count
  {
    if 0 <= nLines < count then Bound(nLines)
    else if count > 0 then Bound(count - 1)
    else Unbound
  }

  // ---------------------------------------------------------------------------
  // Progress cadence

  /** `max(n_lines // 20, 1)`. (Python's `//` floors; Dafny's `/` agrees with
      it because the divisor is positive.) */
  function Stride(nLines: int): (m: int)
    ensures m >= 1
    ensures nLines >= 20 ==> m == nLines / 20
    ensures nLines < 20 ==> m == 1
  {
    if nLines / 20 > 1 then nLines / 20 else 1
  }

  /** Whether a progress mark is printed after line `i`: every 100000 lines
      when unbounded, otherwise every `Stride(n_lines)` lines. */
  predicate Tick(i: nat, nLines: int) {
    if nLines == Unbounded then i % 100000 == 0 else i % Stride(nLines) == 0
  }

  /** The first line always gets a progress mark, whatever the cadence. */
  lemma TickFirstLine(nLines: int)
    ensures Tick(0, nLines)
  {
  }

  /** The line indices below `k` at which a progress mark is printed, in order. */
  function TicksBelow(k: nat, nLines: int): seq<nat> {
    if k == 0 then []
    else TicksBelow(k - 1, nLines) + (if Tick(k - 1, nLines) then [k - 1] else [])
  }

  // ---------------------------------------------------------------------------
  // What the loop computes on the records

  /** The records on which `p` returns true, in order. */
  function Filter(recs: seq<Record>, p: Pred): seq<Record> {
    if recs == [] then []
    else (if Eval(recs[0], p) == Match then [recs[0]] else []) + Filter(recs[1..], p)
  }

  /** The number of records on which `p` raises. */
  function Unprocessable(recs: seq<Record>, p: Pred): nat {
    if recs == [] then 0
    else (if Eval(recs[0], p).Fault? then 1 else 0) + Unprocessable(recs[1..], p)
  }

  /** The number of records on which `p` returns false. */
  function Rejected(recs: seq<Record>, p: Pred): nat {
    if recs == [] then 0
    else (if Eval(recs[0], p) == NoMatch then 1 else 0) + Rejected(recs[1..], p)
  }

  predicate AllParsed(lines: seq<Line>) {
    forall k :: 0 <= k < |lines| ==> lines[k].Parsed?
  }

  /** The records of lines that all parsed. */
  function Records(lines: seq<Line>): (recs: seq<Record>)
    requires AllParsed(lines)
    ensures |recs| == |lines|
    ensures forall k :: 0 <= k < |lines| ==> lines[k] == Parsed(recs[k])
  {
    seq(|lines|, k requires 0 <= k < |lines| => lines[k].rec)
  }

  /** What `load_matches(path, n_lines, verbose, func, args)` does, with `p`
      standing for `func` and `args`. */
  function LoadSpec(lines: seq<Line>, nLines: int, verbose: bool, p: Pred): Result {
    var e := Examined(|lines|, nLines);
    if !AllParsed(lines[..e]) then Failure(Malformed)
    else if verbose && |lines| == 0 then Failure(UnboundIndex)
    else
      var recs := Records(lines[..e]);
      Success(Loaded(Filter(recs, p), Unprocessable(recs, p), LastIndex(|lines|, nLines),
                     if verbose then TicksBelow(e, nLines) else []))
  }

  // ---------------------------------------------------------------------------
  // The loop

  /** load_matches: walks the lines in order until `i == n_lines`, aborts on a
      line that does not parse, keeps the records on which `p` returns true and
      counts those on which it raises. */
  method LoadMatches(lines: seq<Line>, nLines: int, verbose: bool, p: Pred) returns (r: Result)
    ensures r == LoadSpec(lines, nLines, verbose, p)
  {
    var data: seq<Record> := [];
    var unprocessable: nat := 0;
    var ticks: seq<nat> := [];
    var last := Unbound;
    ghost var e := Examined(|lines|, nLines);
    ghost var recs: seq<Record> := [];
    var i := 0;
    while i < |lines|
      invariant 0 <= i <= e
      invariant |recs| == i
      invariant forall k :: 0 <= k < i ==> lines[k] == Parsed(recs[k])
      invariant data == Filter(recs, p)
      invariant unprocessable == Unprocessable(recs, p)
      invariant verbose ==> ticks == TicksBelow(i, nLines)
      invariant !verbose ==> ticks == []
      invariant last == if i == 0 then Unbound else Bound(i - 1)
    {
      last := Bound(i);
      if i == nLines {
        break;
      }
      if lines[i].Bad? {
        MalformedAborts(lines, nLines, verbose, p, i);
        return Failure(Malformed);
      }
      var item := lines[i].rec;
      FilterSnoc(recs, item, p);
      UnprocessableSnoc(recs, item, p);
      var o := Eval(item, p);
      match o {
        case Match => data := data + [item];
        case NoMatch =>
        case Fault(_) => unprocessable := unprocessable + 1;
      }
      if verbose && Tick(i, nLines) {
        ticks := ticks + [i];
      }
      recs := recs + [item];
      i := i + 1;
    }
    LoadSpecOfRecords(lines, nLines, verbose, p, recs);
    if verbose && last == Unbound {
      return Failure(UnboundIndex);
    }
    r := Success(Loaded(data, unprocessable, last, ticks));
  }

  lemma LoadSpecOfRecords(lines: seq<Line>, nLines: int, verbose: bool, p: Pred, recs: seq<Record>)
    requires |recs| == Examined(|lines|, nLines)
    requires forall k :: 0 <= k < |recs| ==> lines[k] == Parsed(recs[k])
    ensures LoadSpec(lines, nLines, verbose, p) ==
      if verbose && |lines| == 0 then Failure(UnboundIndex)
      else Success(Loaded(Filter(recs, p), Unprocessable(recs, p), LastIndex(|lines|, nLines),
                          if verbose then TicksBelow(|recs|, nLines) else []))
  {
    var e := Examined(|lines|, nLines);
    assert AllParsed(lines[..e]) && recs == Records(lines[..e]);
  }

  // ---------------------------------------------------------------------------
  // Order and counting

  /** Filtering a concatenation filters each part: the kept records stay in
      source order. */
  lemma {:induction false} FilterConcat(a: seq<Record>, b: seq<Record>, p: Pred)
    ensures Filter(a + b, p) == Filter(a, p) + Filter(b, p)
    decreases |a|
  {
    if a == [] {
      assert a + b == b;
    } else {
      var h := if Eval(a[0], p) == Match then [a[0]] else [];
      assert (a + b)[0] == a[0] && (a + b)[1..] == a[1..] + b;
      assert Filter(a + b, p) == h + Filter(a[1..] + b, p);
      FilterConcat(a[1..], b, p);
      assert Filter(a, p) == h + Filter(a[1..], p);
    }
  }

  /** The raise count of a concatenation is the sum of the parts' counts. */
  lemma {:induction false} UnprocessableConcat(a: seq<Record>, b: seq<Record>, p: Pred)
    ensures Unprocessable(a + b, p) == Unprocessable(a, p) + Unprocessable(b, p)
    decreases |a|
  {
    if a == [] {
      assert a + b == b;
    } else {
      assert (a + b)[0] == a[0] && (a + b)[1..] == a[1..] + b;
      UnprocessableConcat(a[1..], b, p);
    }
  }

  /** One more record: the loop's append step. */
  lemma FilterSnoc(recs: seq<Record>, x: Record, p: Pred)
    ensures Filter(recs + [x], p) == Filter(recs, p) + (if Eval(x, p) == Match then [x] else [])
  {
    FilterConcat(recs, [x], p);
  }

  /** One more record: the loop's counting step. */
  lemma UnprocessableSnoc(recs: seq<Record>, x: Record, p: Pred)
    ensures Unprocessable(recs + [x], p) == Unprocessable(recs, p) + (if Eval(x, p).Fault? then 1 else 0)
  {
    UnprocessableConcat(recs, [x], p);
  }

  // ---------------------------------------------------------------------------
  // What load_matches promises

  /** A line that fails to decode or parse anywhere before the cutoff aborts the
      whole call; it is not counted as unprocessable. */
  lemma MalformedAborts(lines: seq<Line>, nLines: int, verbose: bool, p: Pred, k: nat)
    requires k < Examined(|lines|, nLines) && lines[k].Bad?
    ensures LoadSpec(lines, nLines, verbose, p) == Failure(Malformed)
  {
  }

  /** A record is kept iff it is one of the examined records and `p` returns
      true on it. */
  lemma {:induction false} FilterMembership(recs: seq<Record>, p: Pred, x: Record)
    ensures x in Filter(recs, p) <==> x in recs && Eval(x, p) == Match
    decreases |recs|
  {
    if recs != [] {
      FilterMembership(recs[1..], p, x);
      assert recs == [recs[0]] + recs[1..];
    }
  }

  /** Every examined record is kept, counted unprocessable, or rejected: exactly
      one of the three. */
  lemma {:induction false} OutcomesPartition(recs: seq<Record>, p: Pred)
    ensures |Filter(recs, p)| + Unprocessable(recs, p) + Rejected(recs, p) == |recs|
    decreases |recs|
  {
    if recs != [] {
      OutcomesPartition(recs[1..], p);
    }
  }

  /** The default predicate keeps every record and never raises. */
  lemma {:induction false} FilterMatchAll(recs: seq<Record>)
    ensures Filter(recs, MatchAll) == recs
    ensures Unprocessable(recs, MatchAll) == 0
    decreases |recs|
  {
    if recs != [] {
      FilterMatchAll(recs[1..]);
      assert recs == [recs[0]] + recs[1..];
    }
  }

  /** fn_none keeps nothing and never raises. */
  lemma {:induction false} FilterNone(recs: seq<Record>)
    ensures Filter(recs, None) == []
    ensures Unprocessable(recs, None) == 0
    decreases |recs|
  {
    if recs != [] {
      FilterNone(recs[1..]);
    }
  }

  /** Filtering with fn_all over two conditions is filtering by the first and
      then filtering the survivors by the second. */
  lemma {:induction false} FilterAllOfTwo(recs: seq<Record>, p: Pred, q: Pred)
    ensures Filter(recs, All([p, q])) == Filter(Filter(recs, p), q)
    decreases |recs|
  {
    if recs != [] {
      var x, rest := recs[0], recs[1..];
      FilterAllOfTwo(rest, p, q);
      AllOfTwo(x, p, q);
      if Eval(x, p) == Match {
        assert Filter(recs, p) == [x] + Filter(rest, p);
        FilterConcat([x], Filter(rest, p), q);
        assert Filter([x], q) == if Eval(x, q) == Match then [x] else [];
      } else {
        assert Filter(recs, p) == Filter(rest, p);
      }
    }
  }

  /** The progress marks are printed at exactly the indices below `k` that
      `Tick` selects, in increasing order. */
  lemma {:induction false} TicksBelowIff(k: nat, nLines: int)
    ensures forall j: nat :: j in TicksBelow(k, nLines) <==> j < k && Tick(j, nLines)
    ensures forall a, b :: 0 <= a < b < |TicksBelow(k, nLines)| ==> TicksBelow(k, nLines)[a] < TicksBelow(k, nLines)[b]
    decreases k
  {
    if k > 0 {
      var before := TicksBelow(k - 1, nLines);
      TicksBelowIff(k - 1, nLines);
      assert forall a :: 0 <= a < |before| ==> before[a] in before;
    }
  }

  /** The kept records are exactly the examined records on which `p` returns
      true, in source order, and their number plus the raise count never
      exceeds the number of lines examined. */
  lemma LoadKeepsExactlyTheMatches(lines: seq<Line>, nLines: int, verbose: bool, p: Pred)
    requires LoadSpec(lines, nLines, verbose, p).Success?
    ensures var e := Examined(|lines|, nLines);
      var out := LoadSpec(lines, nLines, verbose, p).loaded;
      && AllParsed(lines[..e])
      && (forall x :: x in out.data <==> (exists k :: 0 <= k < e && lines[k] == Parsed(x)) && Eval(x, p) == Match)
      && |out.data| + out.unprocessable <= e
  {
    var e := Examined(|lines|, nLines);
    var recs := Records(lines[..e]);
    forall x
      ensures x in Filter(recs, p) <==> (exists k :: 0 <= k < e && lines[k] == Parsed(x)) && Eval(x, p) == Match
    {
      FilterMembership(recs, p, x);
      if x in recs {
        var k :| 0 <= k < e && recs[k] == x;
        assert lines[..e][k] == lines[k];
      }
      if exists k :: 0 <= k < e && lines[k] == Parsed(x) {
        var k :| 0 <= k < e && lines[k] == Parsed(x);
        assert lines[..e][k] == lines[k];
        assert recs[k] == x;
      }
    }
    OutcomesPartition(recs, p);
  }

  /** `n_lines == 0` examines nothing and keeps nothing; `i` is 0 unless the
      file is empty. */
  lemma LoadZeroLines(lines: seq<Line>, verbose: bool, p: Pred)
    requires |lines| > 0 || !verbose
    ensures LoadSpec(lines, 0, verbose, p) ==
      Success(Loaded([], 0, if |lines| > 0 then Bound(0) else Unbound, []))
  {
  }

  /** With a cutoff below the number of lines, the predicate is called on
      exactly the first `n_lines` records and `i` ends equal to `n_lines`. */
  lemma LoadCutoff(lines: seq<Line>, nLines: int, verbose: bool, p: Pred)
    requires 0 <= nLines < |lines|
    requires LoadSpec(lines, nLines, verbose, p).Success?
    ensures Examined(|lines|, nLines) == nLines
    ensures AllParsed(lines[..nLines])
    ensures LoadSpec(lines, nLines, verbose, p).loaded.lastIndex == Bound(nLines)
  {
  }

  /** Without a cutoff every line is examined, and `i` ends as the index of the
      last line, one less than the number of lines examined. */
  lemma LoadToEnd(lines: seq<Line>, nLines: int, verbose: bool, p: Pred)
    requires nLines < 0 || |lines| <= nLines
    requires |lines| > 0
    requires LoadSpec(lines, nLines, verbose, p).Success?
    ensures Examined(|lines|, nLines) == |lines|
    ensures AllParsed(lines)
    ensures LoadSpec(lines, nLines, verbose, p).loaded.lastIndex == Bound(|lines| - 1)
  {
  }

  /** The summary's "loaded k/i" as written: `i` equals the number of lines
      examined after a cutoff, but is one less at the end of the file. */
  lemma SummaryIndexAsWritten(count: nat, nLines: int)
    ensures 0 <= nLines < count ==> LastIndex(count, nLines) == Bound(Examined(count, nLines))
    ensures (nLines < 0 || count <= nLines) && count > 0 ==>
      LastIndex(count, nLines) == Bound(Examined(count, nLines) - 1)
    ensures count == 0 ==> LastIndex(count, nLines) == Unbound
  {
  }

  /** A three-line file read without a cutoff reports 2 lines where 3 were
      examined. */
  lemma SummaryIndexUndercounts()
    ensures LastIndex(3, Unbounded) == Bound(2)
    ensures Examined(3, Unbounded) == 3
  {
  }

  /** The corrected count: `Examined` is the number of predicate calls, so every
      examined line is kept, counted unprocessable or rejected. */
  lemma SummaryCountCorrected(lines: seq<Line>, nLines: int, verbose: bool, p: Pred)
    requires LoadSpec(lines, nLines, verbose, p).Success?
    ensures var out := LoadSpec(lines, nLines, verbose, p).loaded;
      && AllParsed(lines[..Examined(|lines|, nLines)])
      && |out.data| + out.unprocessable + Rejected(Records(lines[..Examined(|lines|, nLines)]), p)
         == Examined(|lines|, nLines)
  {
    OutcomesPartition(Records(lines[..Examined(|lines|, nLines)]), p);
  }

  /** An empty file yields nothing, except that the verbose summary fails on
      the unbound `i`. */
  lemma LoadEmptyFile(nLines: int, verbose: bool, p: Pred)
    ensures LoadSpec([], nLines, verbose, p) ==
      if verbose then Failure(UnboundIndex) else Success(Loaded([], 0, Unbound, []))
  {
  }

  /** The default predicate returns every examined record and counts no
      unprocessable line. */
  lemma LoadMatchAllReturnsAll(lines: seq<Line>, nLines: int, verbose: bool)
    requires LoadSpec(lines, nLines, verbose, MatchAll).Success?
    ensures var out := LoadSpec(lines, nLines, verbose, MatchAll).loaded;
      && |out.data| == Examined(|lines|, nLines)
      && (forall k :: 0 <= k < |out.data| ==> lines[k] == Parsed(out.data[k]))
      && out.unprocessable == 0
  {
    var e := Examined(|lines|, nLines);
    FilterMatchAll(Records(lines[..e]));
    assert forall k :: 0 <= k < e ==> lines[..e][k] == lines[k];
  }

  /** fn_none returns nothing and counts no unprocessable line. */
  lemma LoadNoneReturnsNothing(lines: seq<Line>, nLines: int, verbose: bool)
    requires LoadSpec(lines, nLines, verbose, None).Success?
    ensures LoadSpec(lines, nLines, verbose, None).loaded.data == []
    ensures LoadSpec(lines, nLines, verbose, None).loaded.unprocessable == 0
  {
    FilterNone(Records(lines[..Examined(|lines|, nLines)]));
  }

  /** Lines after the cutoff are never looked at: two files that agree on their
      first `n_lines` lines give the same result. */
  lemma LoadIgnoresLinesAfterCutoff(lines: seq<Line>, lines': seq<Line>, nLines: int, verbose: bool, p: Pred)
    requires 0 <= nLines < |lines| && nLines < |lines'|
    requires lines[..nLines] == lines'[..nLines]
    ensures LoadSpec(lines, nLines, verbose, p) == LoadSpec(lines', nLines, verbose, p)
  {
  }
}
