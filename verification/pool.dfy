/**
 * Sequences of particle ids: the cursor's `points` array (in emission order)
 * and the children of the SVG wrapper (front first). Particles are objects
 * compared by identity; here each one is named by a natural id.
 */
module Pool {

  predicate Distinct(s: seq<nat>) {
    forall i, j :: 0 <= i < j < |s| ==> s[i] != s[j]
  }

  /** The sequence read back to front. */
  function Reverse(s: seq<nat>): (r: seq<nat>)
    ensures |r| == |s|
    ensures forall i :: 0 <= i < |s| ==> r[i] == s[|s| - 1 - i]
  {
    seq(|s|, i requires 0 <= i < |s| => s[|s| - 1 - i])
  }

  /** Reversing keeps the same members. */
  lemma ReverseMembers(s: seq<nat>)
    ensures forall x :: x in Reverse(s) <==> x in s
  {
    var r := Reverse(s);
    forall x | x in s
      ensures x in r
    {
      var i :| 0 <= i < |s| && s[i] == x;
      assert r[|s| - 1 - i] == x;
    }
  }

  lemma ReverseDistinct(s: seq<nat>)
    requires Distinct(s)
    ensures Distinct(Reverse(s))
  {
  }

  /** Appending at the back of a sequence prepends to its reversal. */
  lemma ReverseAppend(s: seq<nat>, x: nat)
    ensures Reverse(s + [x]) == [x] + Reverse(s)
  {
  }

  /** An element not yet present can be appended without creating a repeat. */
  lemma AppendDistinct(s: seq<nat>, x: nat)
    requires Distinct(s) && x !in s
    ensures Distinct(s + [x])
  {
    var r := s + [x];
    forall i, j | 0 <= i < j < |r|
      ensures r[i] != r[j]
    {
      assert r[i] == s[i];
      if j == |s| {
        assert r[j] == x;
      }
    }
  }

  /** The position of the first occurrence of x. */
  function IndexOf(s: seq<nat>, x: nat): (k: nat)
    requires x in s
    ensures k < |s| && s[k] == x
    ensures x !in s[..k]
  {
    if s[0] == x then 0
    else
      var k := 1 + IndexOf(s[1..], x);
      assert s[..k] == [s[0]] + s[1..][..k - 1];
      k
  }

  /** In a sequence without repeats, x sits at exactly one index. */
  lemma IndexOfDistinct(s: seq<nat>, k: nat)
    requires Distinct(s) && k < |s|
    ensures IndexOf(s, s[k]) == k
  {
  }

  /**
   * Identity-based removal: the first occurrence of x is spliced out and
   * every other element keeps its place in order; a sequence without x is
   * returned unchanged.
   */
  function RemoveFirst(s: seq<nat>, x: nat): (r: seq<nat>)
    ensures x !in s ==> r == s
    ensures x in s ==> r == s[..IndexOf(s, x)] + s[IndexOf(s, x) + 1..]
  {
    if |s| == 0 then s
    else if s[0] == x then s[1..]
    else
      var rest := RemoveFirst(s[1..], x);
      assert x in s ==> x in s[1..] && IndexOf(s, x) == 1 + IndexOf(s[1..], x);
      [s[0]] + rest
  }

  /** Splicing one index out of a sequence without repeats keeps it without repeats. */
  lemma SpliceDistinct(s: seq<nat>, k: nat)
    requires Distinct(s) && k < |s|
    ensures Distinct(s[..k] + s[k + 1..])
  {
    var r := s[..k] + s[k + 1..];
    forall i, j | 0 <= i < j < |r|
      ensures r[i] != r[j]
    {
      var i' := if i < k then i else i + 1;
      var j' := if j < k then j else j + 1;
      assert r[i] == s[i'] && r[j] == s[j'];
    }
  }

  /** Splicing index k out of a sequence without repeats loses exactly s[k]. */
  lemma SpliceMembers(s: seq<nat>, k: nat, y: nat)
    requires Distinct(s) && k < |s|
    ensures y in s[..k] + s[k + 1..] <==> y in s && y != s[k]
  {
    var r := s[..k] + s[k + 1..];
    if y in s && y != s[k] {
      var i :| 0 <= i < |s| && s[i] == y;
      if i < k {
        assert r[i] == y;
      } else {
        assert r[i - 1] == y;
      }
    }
    if y in r {
      var i :| 0 <= i < |r| && r[i] == y;
      if i < k {
        assert s[i] == y;
      } else {
        assert s[i + 1] == y;
      }
    }
  }

  /**
   * Removing an id from a sequence without repeats: exactly that id
   * disappears, the length drops by one when it was present, and no
   * repeats appear.
   */
  lemma RemoveFirstDistinct(s: seq<nat>, x: nat)
    requires Distinct(s)
    ensures Distinct(RemoveFirst(s, x))
    ensures forall y :: y in RemoveFirst(s, x) <==> y in s && y != x
    ensures |RemoveFirst(s, x)| == if x in s then |s| - 1 else |s|
  {
    if x in s {
      var k := IndexOf(s, x);
      SpliceDistinct(s, k);
      forall y
        ensures y in RemoveFirst(s, x) <==> y in s && y != x
      {
        SpliceMembers(s, k, y);
      }
    }
  }

  /**
   * Removing an id commutes with reversal on a sequence without repeats: the
   * wrapper, which holds the ids back to front, loses the same element.
   */
  lemma RemoveFirstReverse(s: seq<nat>, x: nat)
    requires Distinct(s)
    ensures RemoveFirst(Reverse(s), x) == Reverse(RemoveFirst(s, x))
  {
    ReverseMembers(s);
    if x in s {
      var k := IndexOf(s, x);
      var r := Reverse(s);
      var k' := |s| - 1 - k;
      ReverseDistinct(s);
      IndexOfDistinct(r, k');
      assert RemoveFirst(r, x) == r[..k'] + r[k' + 1..];
      assert RemoveFirst(s, x) == s[..k] + s[k + 1..];
      ReverseSplice(s, k);
    }
  }

  /** Splicing index k out and then reversing splices the mirrored index out of the reversal. */
  lemma ReverseSplice(s: seq<nat>, k: nat)
    requires k < |s|
    ensures Reverse(s[..k] + s[k + 1..]) == Reverse(s)[..|s| - 1 - k] + Reverse(s)[|s| - k..]
  {
    var a := Reverse(s[..k] + s[k + 1..]);
    var b := Reverse(s)[..|s| - 1 - k] + Reverse(s)[|s| - k..];
    forall i | 0 <= i < |s| - 1
      ensures a[i] == b[i]
    {
      ReverseSpliceAt(s, k, i);
    }
  }

  lemma ReverseSpliceAt(s: seq<nat>, k: nat, i: nat)
    requires k < |s| && i < |s| - 1
    ensures Reverse(s[..k] + s[k + 1..])[i] == (Reverse(s)[..|s| - 1 - k] + Reverse(s)[|s| - k..])[i]
  {
    var n := |s|;
    var t := s[..k] + s[k + 1..];
    var r := Reverse(s);
    var b := r[..n - 1 - k] + r[n - k..];
    assert Reverse(t)[i] == t[n - 2 - i];
    if i < n - 1 - k {
      assert t[n - 2 - i] == s[n - 1 - i];
      assert b[i] == r[i];
    } else {
      assert t[n - 2 - i] == s[n - 2 - i];
      assert b[i] == r[i + 1];
    }
  }
}
