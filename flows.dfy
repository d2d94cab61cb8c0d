/**
 * The part of the coroutine flow pipeline that the bindings rely on:
 * `distinctUntilChangedBy` and a collector that reacts to every delivered
 * value in order. Each reaction runs to completion before the next value is
 * delivered; latest-wins cancellation is not part of this model.
 */
module Flows {
  import opened Wrappers

  // ---------------------------------------------------------------------
  // distinctUntilChangedBy
  // ---------------------------------------------------------------------

  /**
   * The filter with its state made explicit: `last` is the key of the last
   * value delivered (None before the first delivery). A value is dropped
   * exactly when its key equals that key.
   */
  function DistinctFrom<T, K(==)>(key: T -> K, last: Option<K>, s: seq<T>): seq<T>
    decreases |s|
  {
    if s == [] then []
    else if last == Some(key(s[0])) then DistinctFrom(key, last, s[1..])
    else [s[0]] + DistinctFrom(key, Some(key(s[0])), s[1..])
  }

  /** `distinctUntilChangedBy(key)` applied to a finite stream of values. */
  function DistinctBy<T, K(==)>(key: T -> K, s: seq<T>): seq<T>
  {
    DistinctFrom(key, None, s)
  }

  /** No two neighbouring values of `s` have the same key. */
  predicate ChangesEveryStep<T, K(==)>(key: T -> K, s: seq<T>)
  {
    forall i :: 0 < i < |s| ==> key(s[i - 1]) != key(s[i])
  }

  /** `r` is obtained from `s` by deleting some values, keeping the order. */
  predicate IsSubsequence<T(==)>(r: seq<T>, s: seq<T>)
    decreases |s|
  {
    if r == [] then true
    else if s == [] then false
    else (r[0] == s[0] && IsSubsequence(r[1..], s[1..])) || IsSubsequence(r, s[1..])
  }

  lemma {:induction false} SubsequenceMembers<T>(r: seq<T>, s: seq<T>, x: T)
    requires IsSubsequence(r, s)
    requires x in r
    ensures x in s
    decreases |s|
  {
    if r[0] == s[0] && IsSubsequence(r[1..], s[1..]) {
      if x != r[0] {
        SubsequenceMembers(r[1..], s[1..], x);
      }
    } else {
      SubsequenceMembers(r, s[1..], x);
    }
  }

  /** The first value of a stream is always delivered. */
  lemma DistinctKeepsFirst<T, K>(key: T -> K, s: seq<T>)
    requires s != []
    ensures DistinctBy(key, s) != [] && DistinctBy(key, s)[0] == s[0]
  {
  }

  lemma {:induction false} DistinctFromChanges<T, K>(key: T -> K, last: Option<K>, s: seq<T>)
    ensures ChangesEveryStep(key, DistinctFrom(key, last, s))
    ensures last.Some? && DistinctFrom(key, last, s) != [] ==>
              key(DistinctFrom(key, last, s)[0]) != last.value
    decreases |s|
  {
    if s != [] {
      if last == Some(key(s[0])) {
        DistinctFromChanges(key, last, s[1..]);
      } else {
        DistinctFromChanges(key, Some(key(s[0])), s[1..]);
      }
    }
  }

  /** The delivered stream never holds two neighbouring values with equal keys. */
  lemma DistinctChangesEveryStep<T, K>(key: T -> K, s: seq<T>)
    ensures ChangesEveryStep(key, DistinctBy(key, s))
  {
    DistinctFromChanges(key, None, s);
  }

  lemma {:induction false} DistinctFromSubsequence<T, K>(key: T -> K, last: Option<K>, s: seq<T>)
    ensures IsSubsequence(DistinctFrom(key, last, s), s)
    decreases |s|
  {
    if s != [] {
      if last == Some(key(s[0])) {
        DistinctFromSubsequence(key, last, s[1..]);
      } else {
        DistinctFromSubsequence(key, Some(key(s[0])), s[1..]);
      }
    }
  }

  /** The filter only drops values: what it delivers is a subsequence of its input. */
  lemma DistinctSubsequence<T, K>(key: T -> K, s: seq<T>)
    ensures IsSubsequence(DistinctBy(key, s), s)
  {
    DistinctFromSubsequence(key, None, s);
  }

  lemma {:induction false} DistinctFromLastKey<T, K>(key: T -> K, last: Option<K>, s: seq<T>)
    requires s != []
    ensures var r := DistinctFrom(key, last, s);
            if r == [] then last == Some(key(s[|s| - 1])) else key(r[|r| - 1]) == key(s[|s| - 1])
    decreases |s|
  {
    if |s| > 1 {
      if last == Some(key(s[0])) {
        DistinctFromLastKey(key, last, s[1..]);
      } else {
        DistinctFromLastKey(key, Some(key(s[0])), s[1..]);
      }
    }
  }

  /** The latest key is never lost: the last value delivered has the key of the last value emitted. */
  lemma DistinctKeepsLastKey<T, K>(key: T -> K, s: seq<T>)
    requires s != []
    ensures var r := DistinctBy(key, s);
            r != [] && key(r[|r| - 1]) == key(s[|s| - 1])
  {
    DistinctFromLastKey(key, None, s);
  }

  /** The filter's state after `s`: the key of the last value seen, whether delivered or dropped. */
  function KeyAfter<T, K>(key: T -> K, last: Option<K>, s: seq<T>): Option<K>
  {
    if s == [] then last else Some(key(s[|s| - 1]))
  }

  /**
   * The filter's state is the key of the last value it delivered (or the
   * state it started from, when it delivered nothing): a dropped value never
   * changes it.
   */
  lemma KeyAfterIsLastDelivered<T, K>(key: T -> K, last: Option<K>, s: seq<T>)
    ensures var d := DistinctFrom(key, last, s);
            KeyAfter(key, last, s) == if d == [] then last else Some(key(d[|d| - 1]))
  {
    if s != [] {
      DistinctFromLastKey(key, last, s);
    }
  }

  /** Filtering `p + t` is filtering `p`, then filtering `t` from the state `p` left behind. */
  lemma {:induction false} DistinctFromAppend<T, K>(key: T -> K, last: Option<K>, p: seq<T>, t: seq<T>)
    ensures DistinctFrom(key, last, p + t) ==
              DistinctFrom(key, last, p) + DistinctFrom(key, KeyAfter(key, last, p), t)
    decreases |p|
  {
    if p == [] {
      assert p + t == t;
    } else {
      assert (p + t)[0] == p[0];
      assert (p + t)[1..] == p[1..] + t;
      var next := if last == Some(key(p[0])) then last else Some(key(p[0]));
      DistinctFromAppend(key, next, p[1..], t);
      assert KeyAfter(key, next, p[1..]) == KeyAfter(key, last, p);
    }
  }

  /** A run of values with the key last delivered is skipped entirely. */
  lemma {:induction false} DistinctFromSkipsRun<T, K>(key: T -> K, k: K, r: seq<T>, t: seq<T>)
    requires forall i :: 0 <= i < |r| ==> key(r[i]) == k
    ensures DistinctFrom(key, Some(k), r + t) == DistinctFrom(key, Some(k), t)
    decreases |r|
  {
    if r == [] {
      assert r + t == t;
    } else {
      assert (r + t)[0] == r[0];
      assert (r + t)[1..] == r[1..] + t;
      DistinctFromSkipsRun(key, k, r[1..], t);
    }
  }

  /** A run whose key differs from the last delivered one is delivered once, as its first value. */
  lemma RunDeliversHead<T, K>(key: T -> K, last: Option<K>, r: seq<T>, t: seq<T>)
    requires r != [] && forall i :: 0 <= i < |r| ==> key(r[i]) == key(r[0])
    requires last != Some(key(r[0]))
    ensures DistinctFrom(key, last, r + t) == [r[0]] + DistinctFrom(key, Some(key(r[0])), t)
  {
    assert (r + t)[0] == r[0];
    assert (r + t)[1..] == r[1..] + t;
    DistinctFromSkipsRun(key, key(r[0]), r[1..], t);
  }

  /**
   * Every run of values sharing one key, anywhere in the stream, is
   * delivered at most once, as its first value: once when the key differs
   * from the one before the run, not at all when it continues that key.
   */
  lemma DistinctRun<T, K>(key: T -> K, p: seq<T>, r: seq<T>, t: seq<T>)
    requires r != [] && forall i :: 0 <= i < |r| ==> key(r[i]) == key(r[0])
    ensures DistinctBy(key, p + r + t) ==
              DistinctBy(key, p) +
              (if p != [] && key(p[|p| - 1]) == key(r[0]) then [] else [r[0]]) +
              DistinctFrom(key, Some(key(r[0])), t)
  {
    assert p + r + t == p + (r + t);
    DistinctFromAppend(key, None, p, r + t);
    var k := KeyAfter(key, None, p);
    if p != [] && key(p[|p| - 1]) == key(r[0]) {
      DistinctFromSkipsRun(key, key(r[0]), r, t);
    } else {
      RunDeliversHead(key, k, r, t);
    }
  }

  lemma {:induction false} DistinctFromChanging<T, K>(key: T -> K, last: Option<K>, s: seq<T>)
    requires ChangesEveryStep(key, s)
    requires last.Some? && s != [] ==> key(s[0]) != last.value
    ensures DistinctFrom(key, last, s) == s
    decreases |s|
  {
    if s != [] {
      DistinctFromChanging(key, Some(key(s[0])), s[1..]);
    }
  }

  /** A stream whose key changes at every step passes through unchanged. */
  lemma DistinctOfChanging<T, K>(key: T -> K, s: seq<T>)
    requires ChangesEveryStep(key, s)
    ensures DistinctBy(key, s) == s
  {
    DistinctFromChanging(key, None, s);
  }

  /** Filtering twice is the same as filtering once. */
  lemma DistinctIdempotent<T, K>(key: T -> K, s: seq<T>)
    ensures DistinctBy(key, DistinctBy(key, s)) == DistinctBy(key, s)
  {
    DistinctChangesEveryStep(key, s);
    DistinctOfChanging(key, DistinctBy(key, s));
  }

  // ---------------------------------------------------------------------
  // collecting: one reaction per delivered value
  // ---------------------------------------------------------------------

  /**
   * What a collector dispatches when it reacts to each delivered value in
   * order: `react(states[i], observed[i])` is the at most one action issued
   * for the i-th delivered value, where `observed[i]` is what the reaction
   * read from outside the stream (the other store's state at that moment).
   */
  function Reactions<S, C, A>(react: (S, C) -> Option<A>, states: seq<S>, observed: seq<C>): seq<A>
    requires |observed| == |states|
    decreases |states|
  {
    if states == [] then []
    else
      var n := |states| - 1;
      Reactions(react, states[..n], observed[..n]) + OptionToSeq(react(states[n], observed[n]))
  }

  /** Reacting to `a + b` is reacting to `a`, then to `b`. */
  lemma {:induction false} ReactionsAppend<S, C, A>(react: (S, C) -> Option<A>, a: seq<S>, b: seq<S>, oa: seq<C>, ob: seq<C>)
    requires |oa| == |a| && |ob| == |b|
    ensures Reactions(react, a + b, oa + ob) == Reactions(react, a, oa) + Reactions(react, b, ob)
    decreases |b|
  {
    if b == [] {
      assert a + b == a && oa + ob == oa;
    } else {
      var n := |b| - 1;
      var m := |a| + n;
      var x, y, z := Reactions(react, a, oa), Reactions(react, b[..n], ob[..n]), OptionToSeq(react(b[n], ob[n]));
      assert Reactions(react, a + b, oa + ob) == (x + y) + z by {
        assert (a + b)[..m] == a + b[..n] && (oa + ob)[..m] == oa + ob[..n];
        assert (a + b)[m] == b[n] && (oa + ob)[m] == ob[n];
        ReactionsAppend(react, a, b[..n], oa, ob[..n]);
      }
      assert Reactions(react, b, ob) == y + z;
      assert (x + y) + z == x + (y + z);
    }
  }

  /** Reacting to one value is that value's reaction. */
  lemma ReactionsSingle<S, C, A>(react: (S, C) -> Option<A>, s: S, o: C)
    ensures Reactions(react, [s], [o]) == OptionToSeq(react(s, o))
  {
    assert [s][..0] == [] && [o][..0] == [];
  }

  /**
   * A run `r` of one key, following values `p` that end with another key
   * (or starting the stream), causes exactly one reaction: the one to its
   * first value. The log splits into the reactions before the run, that
   * reaction, and the reactions after it.
   */
  lemma RunReactedOnce<S, K, C, A>(key: S -> K, react: (S, C) -> Option<A>,
                                   p: seq<S>, r: seq<S>, t: seq<S>, observed: seq<C>)
    requires r != [] && forall i :: 0 <= i < |r| ==> key(r[i]) == key(r[0])
    requires p == [] || key(p[|p| - 1]) != key(r[0])
    requires |observed| == |DistinctBy(key, p + r + t)|
    ensures var before := DistinctBy(key, p);
            var after := DistinctFrom(key, Some(key(r[0])), t);
            var m := |before|;
            DistinctBy(key, p + r + t) == before + [r[0]] + after &&
            Reactions(react, DistinctBy(key, p + r + t), observed) ==
              Reactions(react, before, observed[..m]) + OptionToSeq(react(r[0], observed[m])) +
              Reactions(react, after, observed[m + 1..])
  {
    var delivered := DistinctBy(key, p + r + t);
    var before := DistinctBy(key, p);
    var after := DistinctFrom(key, Some(key(r[0])), t);
    var m := |before|;
    assert delivered == before + [r[0]] + after by {
      DistinctRun(key, p, r, t);
    }
    var x, y, z := observed[..m], [observed[m]], observed[m + 1..];
    assert observed == x + y + z;
    assert Reactions(react, delivered, observed) ==
             Reactions(react, before, x) + OptionToSeq(react(r[0], observed[m])) + Reactions(react, after, z) by {
      ReactionsAppend(react, before + [r[0]], after, x + y, z);
      ReactionsAppend(react, before, [r[0]], x, y);
      ReactionsSingle(react, r[0], observed[m]);
    }
  }

  /** At most one action per delivered value. */
  lemma {:induction false} ReactionsBound<S, C, A>(react: (S, C) -> Option<A>, states: seq<S>, observed: seq<C>)
    requires |observed| == |states|
    ensures |Reactions(react, states, observed)| <= |states|
    decreases |states|
  {
    if states != [] {
      var n := |states| - 1;
      ReactionsBound(react, states[..n], observed[..n]);
    }
  }

  /** An action is dispatched iff the reaction to some delivered value chose it. */
  lemma {:induction false} ReactionsMembers<S, C, A>(react: (S, C) -> Option<A>, states: seq<S>, observed: seq<C>, a: A)
    requires |observed| == |states|
    ensures a in Reactions(react, states, observed) <==>
            exists i :: 0 <= i < |states| && react(states[i], observed[i]) == Some(a)
    decreases |states|
  {
    if states != [] {
      var n := |states| - 1;
      ReactionsMembers(react, states[..n], observed[..n], a);
      if exists i :: 0 <= i < n && react(states[..n][i], observed[..n][i]) == Some(a) {
        var i :| 0 <= i < n && react(states[..n][i], observed[..n][i]) == Some(a);
        assert react(states[i], observed[i]) == Some(a);
      }
      if a in Reactions(react, states, observed) {
      } else {
        forall i | 0 <= i < |states| ensures react(states[i], observed[i]) != Some(a) {
          if i < n {
            assert states[..n][i] == states[i] && observed[..n][i] == observed[i];
          }
        }
      }
    }
  }

  /**
   * The collector: reacts to each delivered value in turn and appends what
   * the reaction dispatches to the log.
   */
  method Collect<S, C, A>(react: (S, C) -> Option<A>, states: seq<S>, observed: seq<C>) returns (log: seq<A>)
    requires |observed| == |states|
    ensures log == Reactions(react, states, observed)
  {
    log := [];
    var i := 0;
    while i < |states|
      invariant 0 <= i <= |states|
      invariant log == Reactions(react, states[..i], observed[..i])
    {
      assert states[..i + 1][..i] == states[..i];
      assert observed[..i + 1][..i] == observed[..i];
      match react(states[i], observed[i]) {
        case Some(a) => log := log + [a];
        case None =>
      }
      i := i + 1;
    }
    assert states[..i] == states && observed[..i] == observed;
  }
}
