/** Two list shapes the rules build: the concatenation of several lists
    (`allIssues.push(...ruleIssues)` per rule) and the values of a list of
    optional findings (`issues.push` only when a check fires). */
module Seqs {
  import opened Wrappers

  /** The lists of `xss`, one after the other. */
  function Flatten<T>(xss: seq<seq<T>>): seq<T> {
    if xss == [] then [] else Flatten(xss[..|xss| - 1]) + xss[|xss| - 1]
  }

  lemma {:induction false} FlattenAppend<T>(a: seq<seq<T>>, b: seq<seq<T>>)
    ensures Flatten(a + b) == Flatten(a) + Flatten(b)
  {
    if b == [] {
      assert a + b == a;
    } else {
      var init := b[..|b| - 1];
      assert (a + b)[..|a + b| - 1] == a + init;
      assert (a + b)[|a + b| - 1] == b[|b| - 1];
      FlattenAppend(a, init);
    }
  }

  /** Extending the prefix by one list appends that list. */
  lemma FlattenSnoc<T>(xss: seq<seq<T>>, i: nat)
    requires i < |xss|
    ensures Flatten(xss[..i + 1]) == Flatten(xss[..i]) + xss[i]
  {
    assert xss[..i + 1][..i] == xss[..i];
  }

  /** An element of the concatenation is an element of one of the lists, and
      every element of every list is in the concatenation. */
  lemma {:induction false} FlattenMembers<T>(xss: seq<seq<T>>)
    ensures forall x <- Flatten(xss) :: exists i :: 0 <= i < |xss| && x in xss[i]
    ensures forall i, x :: 0 <= i < |xss| && x in xss[i] ==> x in Flatten(xss)
  {
    if xss != [] {
      var init := xss[..|xss| - 1];
      FlattenMembers(init);
      forall x <- Flatten(xss) ensures exists i :: 0 <= i < |xss| && x in xss[i] {
        if x in Flatten(init) {
          var i :| 0 <= i < |init| && x in init[i];
          assert init[i] == xss[i];
        }
      }
      forall i, x | 0 <= i < |xss| && x in xss[i] ensures x in Flatten(xss) {
        if i < |init| {
          assert init[i] == xss[i];
        }
      }
    }
  }

  lemma {:induction false} FlattenEmpty<T>(xss: seq<seq<T>>)
    requires forall i :: 0 <= i < |xss| ==> xss[i] == []
    ensures Flatten(xss) == []
  {
    if xss != [] {
      FlattenEmpty(xss[..|xss| - 1]);
    }
  }

  /** The values of the present entries of `opts`, in order. */
  function Present<T>(opts: seq<Option<T>>): seq<T> {
    if opts == [] then []
    else
      Present(opts[..|opts| - 1]) +
        (match opts[|opts| - 1] case Some(x) => [x] case None => [])
  }

  /** Extending the prefix by one entry keeps that entry's value, if any. */
  lemma PresentSnoc<T>(opts: seq<Option<T>>, i: nat)
    requires i < |opts|
    ensures Present(opts[..i + 1]) ==
      Present(opts[..i]) + (match opts[i] case Some(x) => [x] case None => [])
  {
    assert opts[..i + 1][..i] == opts[..i];
  }

  /** Every value kept comes from a present entry of `opts`. */
  lemma {:induction false} PresentSound<T>(opts: seq<Option<T>>)
    ensures |Present(opts)| <= |opts|
    ensures forall x <- Present(opts) :: exists k :: 0 <= k < |opts| && opts[k] == Some(x)
  {
    if opts != [] {
      var init := opts[..|opts| - 1];
      PresentSound(init);
      forall x <- Present(opts) ensures exists k :: 0 <= k < |opts| && opts[k] == Some(x) {
        if x in Present(init) {
          var k :| 0 <= k < |init| && init[k] == Some(x);
          assert opts[k] == init[k];
        }
      }
    }
  }

  /** Every present entry is kept. */
  lemma {:induction false} PresentComplete<T>(opts: seq<Option<T>>, k: nat)
    requires k < |opts| && opts[k].Some?
    ensures opts[k].value in Present(opts)
  {
    var init := opts[..|opts| - 1];
    if k < |init| {
      PresentComplete(init, k);
      assert opts[k] == init[k];
    }
  }

  /** When each present entry's value records its own index (`key(x) == k`),
      the kept values are in strictly increasing key order, so no index is
      reported twice. */
  lemma {:induction false} PresentIncreasing<T>(opts: seq<Option<T>>, key: T -> int)
    requires forall k :: 0 <= k < |opts| && opts[k].Some? ==> key(opts[k].value) == k
    ensures forall a, b :: 0 <= a < b < |Present(opts)| ==> key(Present(opts)[a]) < key(Present(opts)[b])
    ensures forall x <- Present(opts) :: 0 <= key(x) < |opts|
  {
    if opts != [] {
      var init := opts[..|opts| - 1];
      assert forall k :: 0 <= k < |init| ==> init[k] == opts[k];
      PresentIncreasing(init, key);
      var p0, p := Present(init), Present(opts);
      assert forall a :: 0 <= a < |p0| ==> p[a] == p0[a];
      forall x <- p ensures 0 <= key(x) < |opts| {
        if x !in p0 {
          assert x == opts[|opts| - 1].value;
        }
      }
      forall a, b | 0 <= a < b < |p| ensures key(p[a]) < key(p[b]) {
        if b >= |p0| {
          assert p[b] == opts[|opts| - 1].value;
          assert p[a] in p0;
        }
      }
    }
  }

  /** When each present entry's value records its own index (`key(x) == k`),
      the `k`-th kept value sits at the index its key names. */
  lemma PresentKeyed<T>(opts: seq<Option<T>>, key: T -> int, k: nat)
    requires forall j :: 0 <= j < |opts| && opts[j].Some? ==> key(opts[j].value) == j
    requires k < |Present(opts)|
    ensures var x := Present(opts)[k]; 0 <= key(x) < |opts| && opts[key(x)] == Some(x)
  {
    PresentSound(opts);
    var x := Present(opts)[k];
    assert x in Present(opts);
    var j :| 0 <= j < |opts| && opts[j] == Some(x);
  }
}
