/**
 The matching functions of LoadUtils.py as one closed predicate language.

 In the source a predicate is any Python callable `fn(item, args)` with a loosely
 typed argument tuple; the combinators `fn_any` and `fn_all` take a list of
 tuples `(fn, *arg)` and call `fn(item, arg)`. Here each callable with its
 arguments is one constructor of `Pred`, a combinator holds its sub-predicates
 in order, and `Eval` dispatches on the constructor. What a Python call either
 returns (true or false) or raises is an `Outcome`.
 */
module Predicates {
  import opened Values

  /** Why a predicate raised. */
  datatype FaultKind =
    | MissingKey    // KeyError from `item[field]`
    | Incomparable  // TypeError from `<` or `>` across kinds
    | NotAString    // AttributeError from `.lower()` on a non-string

  /** What one predicate call does: returns true, returns false, or raises. */
  datatype Outcome = Match | NoMatch | Fault(kind: FaultKind)

  datatype Pred =
    | Eq(field: string, target: Value)             // fn_eq
    | Lt(field: string, target: Value)             // fn_lt
    | Gt(field: string, target: Value)             // fn_gt
    | Substring(field: string, needle: string)     // fn_substring
    | In(field: string, collection: seq<Value>)    // fn_in
    | None                                         // fn_none
    | MatchAll                                     // the default `lambda item, args: True`
    | Any(preds: seq<Pred>)                        // fn_any
    | All(preds: seq<Pred>)                        // fn_all

  function FromBool(b: bool): Outcome {
    if b then Match else NoMatch
  }

  /** The outcome of the opposite condition: true and false swap, a raise stays. */
  function Negate(o: Outcome): Outcome {
    match o
    case Match => NoMatch
    case NoMatch => Match
    case Fault(k) => Fault(k)
  }

  /** Calls predicate `p` on record `rec`. */
  function Eval(rec: Record, p: Pred): Outcome
    decreases p, 1
  {
    match p
    case Eq(f, t) =>
      if f !in rec then Fault(MissingKey) else FromBool(rec[f] == t)
    case Lt(f, t) =>
      if f !in rec then Fault(MissingKey)
      else if !Comparable(rec[f], t) then Fault(Incomparable)
      else FromBool(Less(rec[f], t))
    case Gt(f, t) =>
      if f !in rec then Fault(MissingKey)
      else if !Comparable(rec[f], t) then Fault(Incomparable)
      else FromBool(Less(t, rec[f]))
    case Substring(f, n) =>
      if f !in rec then Fault(MissingKey)
      else if !rec[f].Str? then Fault(NotAString)
      else FromBool(Contains(Lower(rec[f].s), Lower(n)))
    case In(f, c) =>
      if f !in rec then Fault(MissingKey) else FromBool(rec[f] in c)
    case None => NoMatch
    case MatchAll => Match
    case Any(ps) => EvalAny(rec, ps)
    case All(ps) => EvalAll(rec, ps)
  }

  /** fn_any: tries the sub-predicates in order and returns true at the first
      true one; a raise ends the loop and propagates. */
  function EvalAny(rec: Record, ps: seq<Pred>): Outcome
    decreases ps, 0
  {
    if ps == [] then NoMatch
    else match Eval(rec, ps[0])
      case Match => Match
      case NoMatch => EvalAny(rec, ps[1..])
      case Fault(k) => Fault(k)
  }

  /** fn_all: tries the sub-predicates in order and returns false at the first
      false one; a raise ends the loop and propagates. */
  function EvalAll(rec: Record, ps: seq<Pred>): Outcome
    decreases ps, 0
  {
    if ps == [] then Match
    else match Eval(rec, ps[0])
      case Match => EvalAll(rec, ps[1..])
      case NoMatch => NoMatch
      case Fault(k) => Fault(k)
  }

  // ---------------------------------------------------------------------------
  // The leaf tests

  /** fn_eq matches exactly the records whose field holds the target (no case
      folding, no conversion between kinds) and raises only on a missing field. */
  lemma EqMatchesIff(rec: Record, f: string, t: Value)
    ensures Eval(rec, Eq(f, t)) == Match <==> f in rec && rec[f] == t
    ensures Eval(rec, Eq(f, t)).Fault? <==> f !in rec
  {
  }

  /** fn_in with the collection `c` is fn_any over one fn_eq per element of `c`,
      provided the field is present or `c` is non-empty (the membership test
      reads the field even when `c` is empty). */
  lemma {:induction false} InIsAnyEq(rec: Record, f: string, c: seq<Value>)
    requires f in rec || |c| > 0
    ensures Eval(rec, In(f, c)) == EvalAny(rec, seq(|c|, i requires 0 <= i < |c| => Eq(f, c[i])))
    decreases |c|
  {
    var qs := seq(|c|, i requires 0 <= i < |c| => Eq(f, c[i]));
    if |c| > 0 && f in rec && rec[f] != c[0] {
      var c' := c[1..];
      var qs' := seq(|c'|, i requires 0 <= i < |c'| => Eq(f, c'[i]));
      assert qs[1..] == qs';
      if |c'| > 0 {
        InIsAnyEq(rec, f, c');
      }
      assert rec[f] in c <==> rec[f] in c';
    }
  }

  /** fn_lt and fn_gt raise exactly when the field is missing or its value and
      the target are of different kinds (or of a kind with no order). */
  lemma OrderFaultIff(rec: Record, f: string, t: Value)
    ensures Eval(rec, Lt(f, t)).Fault? <==> f !in rec || !Comparable(rec[f], t)
    ensures Eval(rec, Gt(f, t)).Fault? <==> f !in rec || !Comparable(rec[f], t)
  {
  }

  /** fn_lt matches iff the field's value is below the target, fn_gt iff the
      target is below the field's value, both in Python's order. */
  lemma OrderMatchesIff(rec: Record, f: string, t: Value)
    ensures Eval(rec, Lt(f, t)) == Match <==> f in rec && Comparable(rec[f], t) && Less(rec[f], t)
    ensures Eval(rec, Gt(f, t)) == Match <==> f in rec && Comparable(rec[f], t) && Less(t, rec[f])
  {
  }

  /** fn_in matches iff the field's value equals some element of the
      collection, and raises only on a missing field. */
  lemma InMatchesIff(rec: Record, f: string, c: seq<Value>)
    ensures Eval(rec, In(f, c)) == Match <==> f in rec && exists k :: 0 <= k < |c| && c[k] == rec[f]
    ensures Eval(rec, In(f, c)).Fault? <==> f !in rec
  {
  }

  /** When the field's value and the target are comparable, exactly one of
      fn_lt, fn_eq and fn_gt matches. */
  lemma OrderTrichotomy(rec: Record, f: string, t: Value)
    requires f in rec && Comparable(rec[f], t)
    ensures Eval(rec, Lt(f, t)) != Fault(Incomparable)
    ensures (Eval(rec, Lt(f, t)) == Match) || (Eval(rec, Eq(f, t)) == Match) || (Eval(rec, Gt(f, t)) == Match)
    ensures !(Eval(rec, Lt(f, t)) == Match && Eval(rec, Eq(f, t)) == Match)
    ensures !(Eval(rec, Lt(f, t)) == Match && Eval(rec, Gt(f, t)) == Match)
    ensures !(Eval(rec, Eq(f, t)) == Match && Eval(rec, Gt(f, t)) == Match)
  {
    LessIsStrictTotalOrder(rec[f], t);
    if rec[f].Str? {
      StrLessTrichotomy(rec[f].s, t.s);
    }
  }

  /** fn_substring matches iff the lower-cased needle occurs in the lower-cased
      field value, and raises iff the field is missing or is not a string. */
  lemma SubstringMatchesIff(rec: Record, f: string, n: string)
    ensures Eval(rec, Substring(f, n)) == Match <==>
      f in rec && rec[f].Str? && exists i :: OccursAt(Lower(rec[f].s), Lower(n), i)
    ensures Eval(rec, Substring(f, n)).Fault? <==> f !in rec || !rec[f].Str?
  {
    if f in rec && rec[f].Str? {
      ContainsIff(Lower(rec[f].s), Lower(n));
    }
  }

  /** fn_substring ignores the case of the needle. */
  lemma SubstringIgnoresCase(rec: Record, f: string, n: string, n': string)
    requires Lower(n) == Lower(n')
    ensures Eval(rec, Substring(f, n)) == Eval(rec, Substring(f, n'))
  {
  }

  /** "Fish" is found, ignoring case, in "Blue Fish Grill". (The name is a
      parameter so that the verifier does not unfold the search on literals.) */
  lemma SubstringFishFound(rec: Record, name: string)
    requires name == "Blue Fish Grill" && rec == map["name" := Str(name)]
    ensures Eval(rec, Substring("name", "Fish")) == Match
  {
    var hay, needle := Lower(name), Lower("Fish");
    assert needle == "fish";
    assert hay[5..9] == "fish";
    assert OccursAt(hay, needle, 5);
    ContainsIff(hay, needle);
  }

  /** "Fish" is not found in "Aquarium Supplies", which has no letter f. */
  lemma SubstringFishNotFound(rec: Record, name: string)
    requires name == "Aquarium Supplies" && rec == map["name" := Str(name)]
    ensures Eval(rec, Substring("name", "Fish")) == NoMatch
  {
    var hay, needle := Lower(name), Lower("Fish");
    assert needle[0] == 'f';
    assert forall i :: 0 <= i < |hay| ==> hay[i] != needle[0];
    assert forall i :: !OccursAt(hay, needle, i);
    ContainsIff(hay, needle);
  }

  // ---------------------------------------------------------------------------
  // The combinators

  /** fn_any returns true iff some sub-predicate returns true and every one
      before it returned false. */
  lemma {:induction false} AnyMatchIff(rec: Record, ps: seq<Pred>)
    ensures EvalAny(rec, ps) == Match <==>
      exists k :: 0 <= k < |ps| && Eval(rec, ps[k]) == Match &&
        forall j :: 0 <= j < k ==> Eval(rec, ps[j]) == NoMatch
    decreases |ps|
  {
    if ps != [] {
      AnyMatchIff(rec, ps[1..]);
      if Eval(rec, ps[0]) == NoMatch {
        if EvalAny(rec, ps[1..]) == Match {
          var k :| 0 <= k < |ps[1..]| && Eval(rec, ps[1..][k]) == Match &&
            forall j :: 0 <= j < k ==> Eval(rec, ps[1..][j]) == NoMatch;
          assert Eval(rec, ps[k + 1]) == Match;
          assert forall j :: 0 <= j < k + 1 ==> Eval(rec, ps[j]) == NoMatch by {
            forall j | 0 <= j < k + 1 ensures Eval(rec, ps[j]) == NoMatch {
              if j > 0 { assert ps[j] == ps[1..][j - 1]; }
            }
          }
        } else {
          forall k | 0 <= k < |ps| && Eval(rec, ps[k]) == Match
            ensures exists j :: 0 <= j < k && Eval(rec, ps[j]) != NoMatch
          {
            assert k > 0 && ps[k] == ps[1..][k - 1];
            var j :| 0 <= j < k - 1 && Eval(rec, ps[1..][j]) != NoMatch;
            assert ps[j + 1] == ps[1..][j];
          }
        }
      }
    }
  }

  /** fn_any returns false iff every sub-predicate returns false (in particular
      for an empty list). */
  lemma {:induction false} AnyNoMatchIff(rec: Record, ps: seq<Pred>)
    ensures EvalAny(rec, ps) == NoMatch <==> forall k :: 0 <= k < |ps| ==> Eval(rec, ps[k]) == NoMatch
    decreases |ps|
  {
    if ps != [] {
      AnyNoMatchIff(rec, ps[1..]);
      assert forall k :: 1 <= k < |ps| ==> ps[k] == ps[1..][k - 1];
    }
  }

  /** fn_any raises iff some sub-predicate raises and every one before it
      returned false; the raise is the sub-predicate's own. */
  lemma {:induction false} AnyFaultIff(rec: Record, ps: seq<Pred>, fk: FaultKind)
    ensures EvalAny(rec, ps) == Fault(fk) <==>
      exists k :: 0 <= k < |ps| && Eval(rec, ps[k]) == Fault(fk) &&
        forall j :: 0 <= j < k ==> Eval(rec, ps[j]) == NoMatch
    decreases |ps|
  {
    if ps != [] {
      AnyFaultIff(rec, ps[1..], fk);
      if Eval(rec, ps[0]) == NoMatch {
        if EvalAny(rec, ps[1..]) == Fault(fk) {
          var k :| 0 <= k < |ps[1..]| && Eval(rec, ps[1..][k]) == Fault(fk) &&
            forall j :: 0 <= j < k ==> Eval(rec, ps[1..][j]) == NoMatch;
          assert Eval(rec, ps[k + 1]) == Fault(fk);
          assert forall j :: 0 <= j < k + 1 ==> Eval(rec, ps[j]) == NoMatch by {
            forall j | 0 <= j < k + 1 ensures Eval(rec, ps[j]) == NoMatch {
              if j > 0 { assert ps[j] == ps[1..][j - 1]; }
            }
          }
        } else {
          forall k | 0 <= k < |ps| && Eval(rec, ps[k]) == Fault(fk)
            ensures exists j :: 0 <= j < k && Eval(rec, ps[j]) != NoMatch
          {
            assert k > 0 && ps[k] == ps[1..][k - 1];
            var j :| 0 <= j < k - 1 && Eval(rec, ps[1..][j]) != NoMatch;
            assert ps[j + 1] == ps[1..][j];
          }
        }
      }
    }
  }

  /** fn_all returns true iff every sub-predicate returns true (in particular
      for an empty list). */
  lemma {:induction false} AllMatchIff(rec: Record, ps: seq<Pred>)
    ensures EvalAll(rec, ps) == Match <==> forall k :: 0 <= k < |ps| ==> Eval(rec, ps[k]) == Match
    decreases |ps|
  {
    if ps != [] {
      AllMatchIff(rec, ps[1..]);
      assert forall k :: 1 <= k < |ps| ==> ps[k] == ps[1..][k - 1];
    }
  }

  /** fn_all returns false iff some sub-predicate returns false and every one
      before it returned true. */
  lemma {:induction false} AllNoMatchIff(rec: Record, ps: seq<Pred>)
    ensures EvalAll(rec, ps) == NoMatch <==>
      exists k :: 0 <= k < |ps| && Eval(rec, ps[k]) == NoMatch &&
        forall j :: 0 <= j < k ==> Eval(rec, ps[j]) == Match
    decreases |ps|
  {
    if ps != [] {
      AllNoMatchIff(rec, ps[1..]);
      if Eval(rec, ps[0]) == Match {
        if EvalAll(rec, ps[1..]) == NoMatch {
          var k :| 0 <= k < |ps[1..]| && Eval(rec, ps[1..][k]) == NoMatch &&
            forall j :: 0 <= j < k ==> Eval(rec, ps[1..][j]) == Match;
          assert Eval(rec, ps[k + 1]) == NoMatch;
          assert forall j :: 0 <= j < k + 1 ==> Eval(rec, ps[j]) == Match by {
            forall j | 0 <= j < k + 1 ensures Eval(rec, ps[j]) == Match {
              if j > 0 { assert ps[j] == ps[1..][j - 1]; }
            }
          }
        } else {
          forall k | 0 <= k < |ps| && Eval(rec, ps[k]) == NoMatch
            ensures exists j :: 0 <= j < k && Eval(rec, ps[j]) != Match
          {
            assert k > 0 && ps[k] == ps[1..][k - 1];
            var j :| 0 <= j < k - 1 && Eval(rec, ps[1..][j]) != Match;
            assert ps[j + 1] == ps[1..][j];
          }
        }
      }
    }
  }

  /** fn_all raises iff some sub-predicate raises and every one before it
      returned true; the raise is the sub-predicate's own. */
  lemma {:induction false} AllFaultIff(rec: Record, ps: seq<Pred>, fk: FaultKind)
    ensures EvalAll(rec, ps) == Fault(fk) <==>
      exists k :: 0 <= k < |ps| && Eval(rec, ps[k]) == Fault(fk) &&
        forall j :: 0 <= j < k ==> Eval(rec, ps[j]) == Match
    decreases |ps|
  {
    if ps != [] {
      AllFaultIff(rec, ps[1..], fk);
      if Eval(rec, ps[0]) == Match {
        if EvalAll(rec, ps[1..]) == Fault(fk) {
          var k :| 0 <= k < |ps[1..]| && Eval(rec, ps[1..][k]) == Fault(fk) &&
            forall j :: 0 <= j < k ==> Eval(rec, ps[1..][j]) == Match;
          assert Eval(rec, ps[k + 1]) == Fault(fk);
          assert forall j :: 0 <= j < k + 1 ==> Eval(rec, ps[j]) == Match by {
            forall j | 0 <= j < k + 1 ensures Eval(rec, ps[j]) == Match {
              if j > 0 { assert ps[j] == ps[1..][j - 1]; }
            }
          }
        } else {
          forall k | 0 <= k < |ps| && Eval(rec, ps[k]) == Fault(fk)
            ensures exists j :: 0 <= j < k && Eval(rec, ps[j]) != Match
          {
            assert k > 0 && ps[k] == ps[1..][k - 1];
            var j :| 0 <= j < k - 1 && Eval(rec, ps[1..][j]) != Match;
            assert ps[j + 1] == ps[1..][j];
          }
        }
      }
    }
  }

  /** De Morgan: fn_all over `ps` is the negation of fn_any over conditions `qs`
      that are, one by one, the negations of `ps`. Because a raise stops both
      loops at the same place, this holds even when sub-predicates raise. */
  lemma {:induction false} AllIsNotAnyOfNegations(rec: Record, ps: seq<Pred>, qs: seq<Pred>)
    requires |ps| == |qs|
    requires forall k :: 0 <= k < |ps| ==> Eval(rec, qs[k]) == Negate(Eval(rec, ps[k]))
    ensures EvalAll(rec, ps) == Negate(EvalAny(rec, qs))
    decreases |ps|
  {
    if ps != [] {
      assert Eval(rec, qs[0]) == Negate(Eval(rec, ps[0]));
      AllIsNotAnyOfNegations(rec, ps[1..], qs[1..]);
    }
  }

  /** fn_all over two conditions matches iff both match. */
  lemma AllOfTwo(rec: Record, p: Pred, q: Pred)
    ensures Eval(rec, All([p, q])) == Match <==> Eval(rec, p) == Match && Eval(rec, q) == Match
  {
    AllMatchIff(rec, [p, q]);
  }
}
