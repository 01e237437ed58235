/**
 * Small facts about sequences shared by the rest of the model: distinctness,
 * the element set of a sequence, first-occurrence de-duplication (the order in
 * which a Python dict remembers its keys) and sums of counts.
 */
module Seqs {

  /** No element occurs twice. */
  predicate NoDuplicates<T(==)>(s: seq<T>) {
    forall i, j :: 0 <= i < j < |s| ==> s[i] != s[j]
  }

  /** The set of elements of a sequence. */
  function Elems<T>(s: seq<T>): set<T> {
    set x | x in s
  }

  /**
   * `acc` followed by the elements of `s` that are not yet present, each at its
   * first occurrence. This is how the key order of a dict evolves when the
   * keys of `s` are assigned one after the other: re-assigning an existing key
   * keeps its place.
   */
  function AddNew<T(==)>(acc: seq<T>, s: seq<T>): (r: seq<T>)
    ensures NoDuplicates(acc) ==> NoDuplicates(r)
    ensures Elems(r) == Elems(acc) + Elems(s)
    ensures |acc| <= |r| && r[..|acc|] == acc
  {
    if s == [] then acc
    else
      var init, x := s[..|s| - 1], s[|s| - 1];
      assert s == init + [x];
      AppendOne(init, x);
      var prev := AddNew(acc, init);
      AppendOne(prev, x);
      if x in prev then prev else prev + [x]
  }

  /** Adding one more element of a list appends it when it is new. */
  lemma AddNewPrefix<T>(acc: seq<T>, s: seq<T>, j: nat)
    requires j < |s|
    ensures AddNew(acc, s[..j + 1]) == if s[j] in AddNew(acc, s[..j]) then AddNew(acc, s[..j]) else AddNew(acc, s[..j]) + [s[j]]
  {
    assert s[..j + 1][..j] == s[..j];
  }

  /**
   * A front-to-back reading of first occurrence: scanning `s` from its start,
   * keep each element that is neither in `seen` nor earlier in `s`.
   */
  function FirstNew<T(==)>(seen: set<T>, s: seq<T>): seq<T>
    decreases |s|
  {
    if s == [] then []
    else if s[0] in seen then FirstNew(seen, s[1..])
    else [s[0]] + FirstNew(seen + {s[0]}, s[1..])
  }

  /** Scanning one more element keeps it exactly when it has not been seen. */
  lemma {:induction false} FirstNewSnoc<T>(seen: set<T>, s: seq<T>, x: T)
    ensures FirstNew(seen, s + [x]) == FirstNew(seen, s) + (if x in seen + Elems(s) then [] else [x])
    decreases |s|
  {
    if s != [] {
      assert (s + [x])[0] == s[0];
      assert (s + [x])[1..] == s[1..] + [x];
      assert Elems(s) == {s[0]} + Elems(s[1..]) by {
        assert s == [s[0]] + s[1..];
      }
      if s[0] in seen {
        FirstNewSnoc(seen, s[1..], x);
      } else {
        FirstNewSnoc(seen + {s[0]}, s[1..], x);
      }
    }
  }

  /**
   * The key order that `AddNew` builds from the back equals `acc` followed by
   * the first occurrences of the new keys read from the front: every key sits
   * at its first assignment.
   */
  lemma {:induction false} AddNewIsFirstOccurrence<T>(acc: seq<T>, s: seq<T>)
    ensures AddNew(acc, s) == acc + FirstNew(Elems(acc), s)
  {
    if s != [] {
      var init, x := s[..|s| - 1], s[|s| - 1];
      assert s == init + [x];
      AddNewIsFirstOccurrence(acc, init);
      FirstNewSnoc(Elems(acc), init, x);
    }
  }

  /** The distinct elements of `s`, in order of first occurrence. */
  function Dedup<T(==)>(s: seq<T>): (r: seq<T>)
    ensures NoDuplicates(r) && Elems(r) == Elems(s)
  {
    AddNew([], s)
  }

  /** A sequence has at most as many distinct elements as it has entries, and exactly as many when it has no duplicates. */
  lemma {:induction false} ElemsCardinality<T>(s: seq<T>)
    ensures |Elems(s)| <= |s|
    ensures NoDuplicates(s) ==> |Elems(s)| == |s|
  {
    if s != [] {
      var init := s[..|s| - 1];
      ElemsCardinality(init);
      assert s == init + [s[|s| - 1]];
      assert Elems(s) == Elems(init) + {s[|s| - 1]};
      if NoDuplicates(s) {
        assert NoDuplicates(init);
      }
    }
  }

  /** Sum of a sequence of counts, accumulated from the front as a running offset is. */
  function Sum(s: seq<nat>): nat {
    if s == [] then 0 else Sum(s[..|s| - 1]) + s[|s| - 1]
  }

  /** The running offset before entry k, plus entry k, is the running offset after it, and no prefix sums past the total. */
  lemma {:induction false} SumPrefix(s: seq<nat>, k: nat)
    requires k < |s|
    ensures Sum(s[..k + 1]) == Sum(s[..k]) + s[k]
    ensures Sum(s[..k + 1]) <= Sum(s)
  {
    assert s[..k + 1][..k] == s[..k];
    if k + 1 < |s| {
      SumPrefix(s[..|s| - 1], k);
      assert s[..|s| - 1][..k + 1] == s[..k + 1];
      assert s[..|s| - 1][..k] == s[..k];
    } else {
      assert s[..k + 1] == s;
    }
  }

  /** A non-empty sequence holds the elements of its prefix and its last element. */
  lemma SplitLast<T>(s: seq<T>)
    requires |s| > 0
    ensures forall x :: x in s <==> x in s[..|s| - 1] || x == s[|s| - 1]
  {
    assert s == s[..|s| - 1] + [s[|s| - 1]];
  }

  /** Appending x adds x to the elements, keeps the sequence duplicate-free when x is new, and keeps the first element. */
  lemma AppendOne<T>(s: seq<T>, x: T)
    ensures Elems(s + [x]) == Elems(s) + {x}
    ensures NoDuplicates(s) && x !in s ==> NoDuplicates(s + [x])
    ensures (s + [x])[0] == if s == [] then x else s[0]
  {
  }

  /** A set whose members are those of `b` and of `s` is `b + Elems(s)`. */
  lemma UnionWithElems<T>(a: set<T>, b: set<T>, s: seq<T>)
    requires forall x :: x in a <==> x in b || x in s
    ensures a == b + Elems(s)
  {
  }
}
