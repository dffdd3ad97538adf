/** The last element of a list for which a partial reading is defined: what a loop that overwrites leaves behind. */
module LastOf {
  import opened Wrappers

  function Last<T, V>(read: T -> Option<V>, xs: seq<T>, initial: V): V
  {
    if xs == [] then initial
    else
      match read(xs[|xs| - 1])
      case Some(v) => v
      case None => Last(read, xs[..|xs| - 1], initial)
  }

  // One more element overwrites what the elements before it left, if it can be read.
  lemma LastStep<T, V>(read: T -> Option<V>, xs: seq<T>, k: nat, initial: V)
    requires k < |xs|
    ensures Last(read, xs[..k + 1], initial) ==
      match read(xs[k]) case Some(v) => v case None => Last(read, xs[..k], initial)
  {
    assert xs[..k + 1][..k] == xs[..k];
  }

  // It is the reading of an element after which nothing can be read, or the initial value if nothing can.
  lemma {:induction false} LastIsLast<T, V>(read: T -> Option<V>, xs: seq<T>, initial: V)
    ensures
      || (Last(read, xs, initial) == initial && forall i :: 0 <= i < |xs| ==> read(xs[i]) == None)
      || exists i :: 0 <= i < |xs| && read(xs[i]) == Some(Last(read, xs, initial))
                     && forall j :: i < j < |xs| ==> read(xs[j]) == None
  {
    if xs != [] {
      var n := |xs| - 1;
      if read(xs[n]) == None {
        LastIsLast(read, xs[..n], initial);
      } else {
        assert read(xs[n]) == Some(Last(read, xs, initial));
      }
    }
  }

  // The last element that can be read decides, whatever stands before it.
  lemma {:induction false} LastAt<T, V>(read: T -> Option<V>, before: seq<T>, x: T, after: seq<T>, initial: V)
    requires read(x).Some? && forall i :: 0 <= i < |after| ==> read(after[i]).None?
    ensures Last(read, before + [x] + after, initial) == read(x).value
    decreases |after|
  {
    var xs := before + [x] + after;
    if after != [] {
      var front := after[..|after| - 1];
      assert xs[..|xs| - 1] == before + [x] + front && xs[|xs| - 1] == after[|after| - 1];
      LastAt(read, before, x, front, initial);
    }
  }

  lemma {:induction false} LastOfNone<T, V>(read: T -> Option<V>, xs: seq<T>, initial: V)
    requires forall i :: 0 <= i < |xs| ==> read(xs[i]).None?
    ensures Last(read, xs, initial) == initial
  {
    LastIsLast(read, xs, initial);
  }

  // At most one position can be read.
  ghost predicate ReadOnce<T(!new), V>(read: T -> Option<V>, xs: seq<T>) {
    forall i, j :: 0 <= i < j < |xs| ==> read(xs[i]) == None || read(xs[j]) == None
  }

  lemma ReadOnceUnique<T(!new), V>(read: T -> Option<V>, xs: seq<T>, initial: V, x: T)
    requires ReadOnce(read, xs) && x in xs && read(x).Some?
    ensures Last(read, xs, initial) == read(x).value
  {
    LastIsLast(read, xs, initial);
    var i :| 0 <= i < |xs| && xs[i] == x;
    assert read(xs[i]) != None;
  }

  // When at most one element can be read, any permutation of the list leaves the same value behind.
  lemma LastPermutes<T(!new), V>(read: T -> Option<V>, xs: seq<T>, ys: seq<T>, initial: V)
    requires multiset(xs) == multiset(ys) && ReadOnce(read, xs)
    ensures Last(read, xs, initial) == Last(read, ys, initial)
  {
    LastIsLast(read, ys, initial);
    if i :| 0 <= i < |ys| && read(ys[i]) == Some(Last(read, ys, initial)) {
      assert ys[i] in multiset(xs);
      ReadOnceUnique(read, xs, initial, ys[i]);
    } else {
      LastIsLast(read, xs, initial);
      forall i | 0 <= i < |xs| ensures read(xs[i]) == None {
        assert xs[i] in multiset(ys);
        var j :| 0 <= j < |ys| && ys[j] == xs[i];
      }
    }
  }
}
