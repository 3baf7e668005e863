/**
 Greedy word matching of the accuracy scorer. For each reference word in
 turn, the transcribed words are scanned from the first one, and the first
 transcribed position holding the same word that no earlier reference word
 has taken is taken. A taken position is never taken again.
 */
module Matching {
  import opened Results

  /** Position j of the transcription holds w and has not been taken yet. */
  predicate Free(w: string, trans: seq<string>, used: set<nat>, j: nat) {
    j < |trans| && trans[j] == w && j !in used
  }

  /** The first free position holding w at or after position from. */
  function FirstFree(w: string, trans: seq<string>, used: set<nat>, from: nat): (r: Option<nat>)
    decreases |trans| - from
    ensures r.Some? ==> from <= r.value && Free(w, trans, used, r.value)
    ensures r.Some? ==> forall j :: from <= j < r.value ==> !Free(w, trans, used, j)
    ensures r.None? ==> forall j :: from <= j ==> !Free(w, trans, used, j)
  {
    if from >= |trans| then None
    else if trans[from] == w && from !in used then Some(from)
    else FirstFree(w, trans, used, from + 1)
  }

  /** Matches found and the transcribed positions taken so far. */
  datatype Matching = Matching(count: nat, used: set<nat>)

  /** Match every reference word in order, starting from the taken positions used. */
  function Greedy(ref: seq<string>, trans: seq<string>, used: set<nat>): (m: Matching)
    ensures used <= m.used
    ensures m.count <= |ref|
    ensures |m.used| == |used| + m.count
    ensures forall j :: j in m.used && j !in used ==> j < |trans|
  {
    if |ref| == 0 then Matching(0, used)
    else match FirstFree(ref[0], trans, used, 0)
      case Some(j) =>
        var m := Greedy(ref[1..], trans, used + {j});
        Matching(m.count + 1, m.used)
      case None => Greedy(ref[1..], trans, used)
  }

  /** The number of matched words of the scorer. */
  function MatchCount(ref: seq<string>, trans: seq<string>): (n: nat)
    ensures n <= |ref| && n <= |trans|
    ensures n == |multiset(ref) * multiset(trans)|
  {
    var m := Greedy(ref, trans, {});
    RangeBound(m.used, |trans|);
    GreedyIsIntersection(ref, trans);
    m.count
  }

  lemma {:induction false} RangeBound(s: set<nat>, n: nat)
    requires forall j :: j in s ==> j < n
    ensures |s| <= n
  {
    if n > 0 {
      var t := s - {n - 1};
      RangeBound(t, n - 1);
    } else {
      assert s == {};
    }
  }

  // Reference definition: the transcribed words not yet taken, and a greedy
  // count that deletes the first equal word from that pool.

  /** The words at the untaken positions from position from on, in order. */
  function Remaining(trans: seq<string>, used: set<nat>, from: nat): seq<string>
    decreases |trans| - from
  {
    if from >= |trans| then []
    else (if from in used then [] else [trans[from]]) + Remaining(trans, used, from + 1)
  }

  /** Delete the first occurrence of w. */
  function RemoveFirst(pool: seq<string>, w: string): (r: seq<string>)
    ensures w in pool ==> multiset(r) == multiset(pool) - multiset{w}
    ensures w !in pool ==> r == pool
  {
    if |pool| == 0 then []
    else
      assert pool == [pool[0]] + pool[1..];
      if pool[0] == w then pool[1..]
      else [pool[0]] + RemoveFirst(pool[1..], w)
  }

  function RemovalCount(ref: seq<string>, pool: seq<string>): nat {
    if |ref| == 0 then 0
    else if ref[0] in pool then 1 + RemovalCount(ref[1..], RemoveFirst(pool, ref[0]))
    else RemovalCount(ref[1..], pool)
  }

  lemma {:induction false} RemainingUntouched(trans: seq<string>, from: nat)
    ensures Remaining(trans, {}, from) == if from >= |trans| then [] else trans[from..]
    decreases |trans| - from
  {
    if from < |trans| {
      RemainingUntouched(trans, from + 1);
      assert trans[from..] == [trans[from]] + trans[from + 1..];
    }
  }

  lemma {:induction false} RemainingIgnoresEarlier(trans: seq<string>, used: set<nat>, j: nat, from: nat)
    requires j < from
    ensures Remaining(trans, used + {j}, from) == Remaining(trans, used, from)
    decreases |trans| - from
  {
    if from < |trans| {
      RemainingIgnoresEarlier(trans, used, j, from + 1);
    }
  }

  lemma {:induction false} FirstFreeAbsent(w: string, trans: seq<string>, used: set<nat>, from: nat)
    ensures FirstFree(w, trans, used, from).None? <==> w !in Remaining(trans, used, from)
    decreases |trans| - from
  {
    if from < |trans| {
      FirstFreeAbsent(w, trans, used, from + 1);
    }
  }

  lemma {:induction false} FirstFreeRemoves(w: string, trans: seq<string>, used: set<nat>, from: nat)
    requires FirstFree(w, trans, used, from).Some?
    ensures Remaining(trans, used + {FirstFree(w, trans, used, from).value}, from)
         == RemoveFirst(Remaining(trans, used, from), w)
    decreases |trans| - from
  {
    if from in used || trans[from] != w {
      assert FirstFree(w, trans, used, from) == FirstFree(w, trans, used, from + 1);
      FirstFreeRemoves(w, trans, used, from + 1);
      if from in used {
        RemovesPastTaken(w, trans, used, from, FirstFree(w, trans, used, from).value);
      } else {
        RemovesPastOther(w, trans, used, from, FirstFree(w, trans, used, from).value);
      }
    } else {
      RemovesHere(w, trans, used, from);
    }
  }

  /** The scan passes a taken position. */
  lemma RemovesPastTaken(w: string, trans: seq<string>, used: set<nat>, from: nat, j: nat)
    requires from < j && from in used
    requires Remaining(trans, used + {j}, from + 1) == RemoveFirst(Remaining(trans, used, from + 1), w)
    ensures Remaining(trans, used + {j}, from) == RemoveFirst(Remaining(trans, used, from), w)
  {
    assert Remaining(trans, used, from) == Remaining(trans, used, from + 1);
    assert Remaining(trans, used + {j}, from) == Remaining(trans, used + {j}, from + 1);
  }

  /** The scan passes a free position holding another word. */
  lemma RemovesPastOther(w: string, trans: seq<string>, used: set<nat>, from: nat, j: nat)
    requires from < j && from < |trans| && from !in used && trans[from] != w
    requires Remaining(trans, used + {j}, from + 1) == RemoveFirst(Remaining(trans, used, from + 1), w)
    ensures Remaining(trans, used + {j}, from) == RemoveFirst(Remaining(trans, used, from), w)
  {
    var rest := Remaining(trans, used, from + 1);
    assert Remaining(trans, used + {j}, from) == [trans[from]] + Remaining(trans, used + {j}, from + 1);
    assert Remaining(trans, used, from) == [trans[from]] + rest;
    RemoveFirstOther(w, trans[from], rest);
  }

  /** The scan stops at a free position holding the word. */
  lemma RemovesHere(w: string, trans: seq<string>, used: set<nat>, from: nat)
    requires from < |trans| && from !in used && trans[from] == w
    ensures Remaining(trans, used + {from}, from) == RemoveFirst(Remaining(trans, used, from), w)
  {
    var rest := Remaining(trans, used, from + 1);
    RemainingIgnoresEarlier(trans, used, from, from + 1);
    assert Remaining(trans, used + {from}, from) == Remaining(trans, used + {from}, from + 1);
    assert Remaining(trans, used, from) == [w] + rest;
    RemoveFirstHead(w, rest);
  }

  lemma RemoveFirstHead(w: string, rest: seq<string>)
    ensures RemoveFirst([w] + rest, w) == rest
  {
    assert ([w] + rest)[1..] == rest;
  }

  lemma RemoveFirstOther(w: string, v: string, rest: seq<string>)
    requires v != w
    ensures RemoveFirst([v] + rest, w) == [v] + RemoveFirst(rest, w)
  {
    assert ([v] + rest)[1..] == rest;
  }

  lemma {:induction false} GreedyIsRemoval(ref: seq<string>, trans: seq<string>, used: set<nat>)
    ensures Greedy(ref, trans, used).count == RemovalCount(ref, Remaining(trans, used, 0))
  {
    if |ref| > 0 {
      FirstFreeAbsent(ref[0], trans, used, 0);
      match FirstFree(ref[0], trans, used, 0)
      case Some(j) =>
        FirstFreeRemoves(ref[0], trans, used, 0);
        GreedyIsRemoval(ref[1..], trans, used + {j});
      case None =>
        GreedyIsRemoval(ref[1..], trans, used);
    }
  }

  lemma {:induction false} RemovalIsIntersection(ref: seq<string>, pool: seq<string>)
    ensures RemovalCount(ref, pool) == |multiset(ref) * multiset(pool)|
  {
    if |ref| == 0 {
      assert multiset(ref) * multiset(pool) == multiset{};
    } else {
      var w := ref[0];
      var tail := multiset(ref[1..]);
      assert ref == [w] + ref[1..];
      assert multiset(ref) == tail + multiset{w};
      if w in pool {
        var smaller := RemoveFirst(pool, w);
        RemovalIsIntersection(ref[1..], smaller);
        assert w in multiset(pool);
        assert multiset(pool) == multiset(smaller) + multiset{w};
        IntersectShared(tail, multiset(smaller), w);
      } else {
        RemovalIsIntersection(ref[1..], pool);
        IntersectAbsent(tail, multiset(pool), w);
      }
    }
  }

  lemma IntersectShared(a: multiset<string>, b: multiset<string>, w: string)
    ensures (a + multiset{w}) * (b + multiset{w}) == a * b + multiset{w}
  {
    forall x {
      calc {
        ((a + multiset{w}) * (b + multiset{w}))[x];
        if (a + multiset{w})[x] <= (b + multiset{w})[x]
        then (a + multiset{w})[x] else (b + multiset{w})[x];
      }
    }
  }

  lemma IntersectAbsent(a: multiset<string>, b: multiset<string>, w: string)
    requires w !in b
    ensures (a + multiset{w}) * b == a * b
  {
  }

  lemma GreedyIsIntersection(ref: seq<string>, trans: seq<string>)
    ensures Greedy(ref, trans, {}).count == |multiset(ref) * multiset(trans)|
  {
    GreedyIsRemoval(ref, trans, {});
    RemainingUntouched(trans, 0);
    if |trans| == 0 {
      assert trans == [];
    } else {
      assert trans[0..] == trans;
    }
    RemovalIsIntersection(ref, trans);
  }

  /** The scorer's nested loops: the outer loop over reference words, the inner
      scan from the first transcribed position, stopping at the first free match. */
  method CountMatches(ref: seq<string>, trans: seq<string>) returns (count: nat, used: set<nat>)
    ensures Matching(count, used) == Greedy(ref, trans, {})
    ensures count == |multiset(ref) * multiset(trans)|
  {
    count, used := 0, {};
    for i := 0 to |ref|
      invariant Greedy(ref[i..], trans, used).count + count == Greedy(ref, trans, {}).count
      invariant Greedy(ref[i..], trans, used).used == Greedy(ref, trans, {}).used
    {
      assert ref[i..][1..] == ref[i + 1..];
      var w := ref[i];
      var j := 0;
      var found := false;
      while j < |trans| && !found
        invariant j <= |trans|
        invariant !found ==> FirstFree(w, trans, used, 0) == FirstFree(w, trans, used, j)
        invariant found ==> FirstFree(w, trans, used, 0) == Some(j)
        decreases |trans| - j, !found
      {
        if trans[j] == w && j !in used {
          found := true;
        } else {
          j := j + 1;
        }
      }
      if found {
        count := count + 1;
        used := used + {j};
      }
    }
    assert ref[|ref|..] == [];
    GreedyIsIntersection(ref, trans);
  }

  /** A word matched twice in the reference needs two copies in the transcription. */
  lemma RepeatedWordMatchesOnce()
    ensures MatchCount(["the", "the"], ["the"]) == 1
  {
    assert multiset(["the", "the"]) * multiset(["the"]) == multiset{"the"};
  }

  /** Identical token sequences match completely. */
  lemma MatchCountIdentical(words: seq<string>)
    ensures MatchCount(words, words) == |words|
  {
    assert multiset(words) * multiset(words) == multiset(words);
  }

  /** Token sequences with no word in common match nothing. */
  lemma MatchCountDisjoint(ref: seq<string>, trans: seq<string>)
    requires forall i :: 0 <= i < |ref| ==> ref[i] !in trans
    ensures MatchCount(ref, trans) == 0
  {
    assert multiset(ref) * multiset(trans) == multiset{};
  }

  /** The count does not depend on which text is the reference. */
  lemma MatchCountSymmetric(ref: seq<string>, trans: seq<string>)
    ensures MatchCount(ref, trans) == MatchCount(trans, ref)
  {
    assert multiset(ref) * multiset(trans) == multiset(trans) * multiset(ref);
  }

  /** Reordering either side leaves the count unchanged. */
  lemma MatchCountReorder(ref: seq<string>, ref': seq<string>, trans: seq<string>, trans': seq<string>)
    requires multiset(ref) == multiset(ref')
    requires multiset(trans) == multiset(trans')
    ensures MatchCount(ref, trans) == MatchCount(ref', trans')
  {
  }
}
