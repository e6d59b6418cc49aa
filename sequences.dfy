/**
 * The two Ruby `Array` operations the table registry relies on:
 * `uniq!`, which drops repeated elements keeping each one's first
 * occurrence, and `reverse`, the order `reverse_each` walks in.
 */
module Sequences {

  /** No element occurs twice. */
  predicate NoDuplicates<T(==)>(s: seq<T>) {
    forall i, j :: 0 <= i < j < |s| ==> s[i] != s[j]
  }

  /** `s.uniq`: scanning left to right, an element is kept only if it has
      not been kept before, so the first occurrence of each survives. */
  function Uniq<T(==)>(s: seq<T>): seq<T>
    decreases |s|
  {
    if |s| == 0 then []
    else
      var kept := Uniq(s[..|s| - 1]);
      if s[|s| - 1] in kept then kept else kept + [s[|s| - 1]]
  }

  /** Elements of `s` in reverse order. */
  function Reverse<T>(s: seq<T>): seq<T>
    decreases |s|
  {
    if |s| == 0 then [] else [s[|s| - 1]] + Reverse(s[..|s| - 1])
  }

  lemma {:induction false} UniqHasNoDuplicates<T>(s: seq<T>)
    ensures NoDuplicates(Uniq(s))
    decreases |s|
  {
    if |s| > 0 {
      UniqHasNoDuplicates(s[..|s| - 1]);
    }
  }

  lemma {:induction false} UniqSameElements<T>(s: seq<T>)
    ensures forall x :: x in Uniq(s) <==> x in s
    decreases |s|
  {
    if |s| > 0 {
      var init := s[..|s| - 1];
      UniqSameElements(init);
      assert s == init + [s[|s| - 1]];
    }
  }

  /** A sequence without repetitions is left as it is. */
  lemma {:induction false} UniqOfDistinct<T>(s: seq<T>)
    requires NoDuplicates(s)
    ensures Uniq(s) == s
    decreases |s|
  {
    if |s| > 0 {
      var init := s[..|s| - 1];
      assert NoDuplicates(init);
      UniqOfDistinct(init);
      assert s == init + [s[|s| - 1]];
    }
  }

  /** Removing repetitions twice removes nothing more. */
  lemma UniqIdempotent<T>(s: seq<T>)
    ensures Uniq(Uniq(s)) == Uniq(s)
  {
    UniqHasNoDuplicates(s);
    UniqOfDistinct(Uniq(s));
  }

  /** What `uniq!` keeps of a sequence is kept, in the same order, at the
      front of what it keeps of any extension of that sequence. */
  lemma {:induction false} UniqPrefix<T>(s: seq<T>, t: seq<T>)
    ensures Uniq(s) <= Uniq(s + t)
    decreases |t|
  {
    if |t| == 0 {
      assert s + t == s;
    } else {
      var t' := t[..|t| - 1];
      UniqPrefix(s, t');
      assert (s + t)[..|s + t| - 1] == s + t';
    }
  }

  /** Appending to a duplicate-free sequence and then removing repetitions:
      an element already present changes nothing, a new one goes last. */
  lemma UniqAppend<T>(s: seq<T>, x: T)
    requires NoDuplicates(s)
    ensures Uniq(s + [x]) == if x in s then s else s + [x]
  {
    assert (s + [x])[..|s|] == s;
    UniqOfDistinct(s);
  }

  lemma {:induction false} ReverseAt<T>(s: seq<T>, k: nat)
    requires k < |s|
    ensures |Reverse(s)| == |s| && Reverse(s)[k] == s[|s| - 1 - k]
    decreases |s|
  {
    ReverseLength(s);
    if k > 0 {
      ReverseAt(s[..|s| - 1], k - 1);
    }
  }

  lemma {:induction false} ReverseLength<T>(s: seq<T>)
    ensures |Reverse(s)| == |s|
    decreases |s|
  {
    if |s| > 0 {
      ReverseLength(s[..|s| - 1]);
    }
  }

  /** Reversing twice gives back the original order. */
  lemma ReverseInvolutive<T>(s: seq<T>)
    ensures Reverse(Reverse(s)) == s
  {
    ReverseLength(s);
    ReverseLength(Reverse(s));
    forall k | 0 <= k < |s|
      ensures Reverse(Reverse(s))[k] == s[k]
    {
      ReverseAt(Reverse(s), k);
      ReverseAt(s, |s| - 1 - k);
    }
  }

  /** Reversing keeps every element as often as before. */
  lemma {:induction false} ReversePreservesMultiset<T>(s: seq<T>)
    ensures multiset(Reverse(s)) == multiset(s)
    decreases |s|
  {
    if |s| > 0 {
      var init := s[..|s| - 1];
      ReversePreservesMultiset(init);
      assert s == init + [s[|s| - 1]];
    }
  }
}
