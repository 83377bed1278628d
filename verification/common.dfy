/** Failure-carrying wrappers shared by every module of the model. */
module Common {

  /** Python's `None` versus a present value. */
  datatype Option<+T> = None | Some(value: T)

  /** A computation that either produces a value or raises an error. */
  datatype Result<+T, +E> = Ok(value: T) | Err(error: E) {
    predicate IsFailure() { Err? }

    function PropagateFailure<U>(): Result<U, E>
      requires Err?
    {
      Err(error)
    }

    function Extract(): T
      requires Ok?
    {
      value
    }
  }

  /** The set of elements of a sequence. */
  function Elems<T>(s: seq<T>): set<T>
  {
    set x | x in s
  }

  /** No element occurs twice. */
  predicate Distinct<T(==)>(s: seq<T>)
  {
    forall i, j :: 0 <= i < j < |s| ==> s[i] != s[j]
  }

  /** Concatenation of a sequence of sequences. */
  function Flatten<T>(ss: seq<seq<T>>): seq<T>
  {
    if ss == [] then [] else ss[0] + Flatten(ss[1..])
  }

  lemma {:induction false} FlattenAppend<T>(a: seq<seq<T>>, b: seq<seq<T>>)
    ensures Flatten(a + b) == Flatten(a) + Flatten(b)
  {
    if a == [] {
      assert a + b == b;
    } else {
      assert (a + b)[1..] == a[1..] + b;
      FlattenAppend(a[1..], b);
    }
  }

  function Reverse<T>(s: seq<T>): (r: seq<T>)
    ensures |r| == |s|
    ensures forall i :: 0 <= i < |s| ==> r[i] == s[|s| - 1 - i]
  {
    if s == [] then [] else Reverse(s[1..]) + [s[0]]
  }

  lemma ReverseAt<T>(s: seq<T>, k: nat)
    requires k < |s|
    ensures |Reverse(s)| == |s| && Reverse(s)[|s| - 1 - k] == s[k]
  {
  }

  /** Facts about a sequence with its `k`-th element removed. */
  lemma RemoveAt<T>(t: seq<T>, k: nat)
    requires k < |t|
    ensures t == t[..k] + [t[k]] + t[k + 1..]
    ensures multiset(t) == multiset(t[..k] + t[k + 1..]) + multiset{t[k]}
    ensures Distinct(t) ==> Distinct(t[..k] + t[k + 1..])
    ensures Distinct(t) ==> Elems(t[..k] + t[k + 1..]) == Elems(t) - {t[k]}
  {
    assert t == t[..k] + [t[k]] + t[k + 1..];
    assert multiset(t) == multiset(t[..k]) + multiset{t[k]} + multiset(t[k + 1..]);
    if Distinct(t) {
      RemoveAtDistinct(t, k);
      RemoveAtElems(t, k);
    }
  }

  lemma RemoveAtDistinct<T>(t: seq<T>, k: nat)
    requires k < |t| && Distinct(t)
    ensures Distinct(t[..k] + t[k + 1..])
  {
    var t' := t[..k] + t[k + 1..];
    forall i, j | 0 <= i < j < |t'| ensures t'[i] != t'[j] {
      var i' := if i < k then i else i + 1;
      var j' := if j < k then j else j + 1;
      assert t'[i] == t[i'] && t'[j] == t[j'];
    }
  }

  lemma RemoveAtElems<T>(t: seq<T>, k: nat)
    requires k < |t| && Distinct(t)
    ensures Elems(t[..k] + t[k + 1..]) == Elems(t) - {t[k]}
  {
    var t' := t[..k] + t[k + 1..];
    forall x ensures x in Elems(t') <==> x in Elems(t) - {t[k]} {
      if x in t' {
        var i :| 0 <= i < |t'| && t'[i] == x;
        var i' := if i < k then i else i + 1;
        assert t[i'] == x;
      }
      if x in Elems(t) - {t[k]} {
        var j :| 0 <= j < |t| && t[j] == x;
        if j < k {
          assert t'[j] == x;
        } else {
          assert t'[j - 1] == x;
        }
      }
    }
  }

  /** Matching the head of `s` with `t[k]` leaves two permutations of each other. */
  lemma RemoveFront<T>(s: seq<T>, t: seq<T>, k: nat)
    requires s != [] && k < |t| && t[k] == s[0] && multiset(s) == multiset(t)
    ensures multiset(s[1..]) == multiset(t[..k] + t[k + 1..])
  {
    assert s == [s[0]] + s[1..];
    assert t == t[..k] + [t[k]] + t[k + 1..];
    var a, b := multiset(s[1..]), multiset(t[..k] + t[k + 1..]);
    assert multiset(s) == multiset{s[0]} + a;
    assert multiset(t) == multiset(t[..k]) + multiset{t[k]} + multiset(t[k + 1..]);
    assert b == multiset(t[..k]) + multiset(t[k + 1..]);
    forall y ensures a[y] == b[y] {
      assert multiset(s)[y] == multiset(t)[y];
    }
  }

  lemma NoElemsEmpty<T>(t: seq<T>)
    ensures Elems(t) == {} ==> t == []
  {
    if t != [] {
      assert t[0] in Elems(t);
    }
  }

  /** Two duplicate-free sequences with the same elements are permutations of each other. */
  lemma {:induction false} SameElemsPermutation<T>(s: seq<T>, t: seq<T>)
    requires Distinct(s) && Distinct(t) && Elems(s) == Elems(t)
    ensures multiset(s) == multiset(t)
    decreases |s|
  {
    if s == [] {
      NoElemsEmpty(t);
    } else {
      assert s[0] in Elems(t);
      var k :| 0 <= k < |t| && t[k] == s[0];
      RemoveAt(t, k);
      RemoveAt(s, 0);
      assert s[..0] + s[1..] == s[1..];
      SameElemsPermutation(s[1..], t[..k] + t[k + 1..]);
    }
  }

  /** Reversing keeps the elements and their distinctness, and flips the order of any two. */
  lemma ReverseFacts<T>(s: seq<T>)
    ensures Elems(Reverse(s)) == Elems(s)
    ensures Distinct(s) ==> Distinct(Reverse(s))
  {
    var r := Reverse(s);
    forall x ensures x in Elems(r) <==> x in Elems(s) {
      if x in r {
        var i :| 0 <= i < |r| && r[i] == x;
        assert s[|s| - 1 - i] == x;
      }
      if x in s {
        var i :| 0 <= i < |s| && s[i] == x;
        assert r[|s| - 1 - i] == x;
      }
    }
  }

  lemma ConsAppend<T>(a: seq<T>, b: seq<T>)
    requires a != []
    ensures a + b == [a[0]] + (a[1..] + b)
  {
    assert a == [a[0]] + a[1..];
  }

  lemma ConcatAssoc<T>(a: seq<T>, b: seq<T>, c: seq<T>)
    ensures a + (b + c) == a + b + c
  {
  }
}
