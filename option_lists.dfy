/** The values present in a list of optional values, in order: how the row loop keeps successes and drops failures. */
module OptionLists {
  import opened Wrappers

  function Present<T>(xs: seq<Option<T>>): (r: seq<T>)
    ensures |r| <= |xs|
  {
    if xs == [] then []
    else Present(xs[..|xs| - 1]) + (if xs[|xs| - 1].Some? then [xs[|xs| - 1].value] else [])
  }

  lemma {:induction false} PresentAppend<T>(a: seq<Option<T>>, b: seq<Option<T>>)
    ensures Present(a + b) == Present(a) + Present(b)
  {
    if b == [] {
      assert a + b == a;
    } else {
      var b' := b[..|b| - 1];
      assert (a + b)[..|a + b| - 1] == a + b';
      assert (a + b)[|a + b| - 1] == b[|b| - 1];
      PresentAppend(a, b');
    }
  }

  /** Every value kept is one of the values present in the list. */
  lemma {:induction false} PresentMembers<T>(xs: seq<Option<T>>)
    ensures forall x :: x in Present(xs) ==> Some(x) in xs
  {
    if xs != [] {
      var init := xs[..|xs| - 1];
      PresentMembers(init);
      assert forall o :: o in init ==> o in xs;
    }
  }

  lemma PresentSingle<T>(x: Option<T>)
    ensures Present([x]) == if x.Some? then [x.value] else []
  {
    assert [x][..0] == [];
  }

  lemma {:induction false} PresentAllSome<T>(xs: seq<Option<T>>)
    requires forall i :: 0 <= i < |xs| ==> xs[i].Some?
    ensures Present(xs) == seq(|xs|, i requires 0 <= i < |xs| => xs[i].value)
  {
    if xs != [] {
      PresentAllSome(xs[..|xs| - 1]);
    }
  }

  lemma {:induction false} PresentNonEmpty<T>(xs: seq<Option<T>>)
    ensures |Present(xs)| > 0 <==> exists i :: 0 <= i < |xs| && xs[i].Some?
  {
    if xs != [] {
      var init := xs[..|xs| - 1];
      PresentNonEmpty(init);
      if exists i :: 0 <= i < |xs| && xs[i].Some? {
        var i :| 0 <= i < |xs| && xs[i].Some?;
        if i < |init| {
          assert init[i] == xs[i];
        }
      }
      if exists i :: 0 <= i < |init| && init[i].Some? {
        var i :| 0 <= i < |init| && init[i].Some?;
        assert xs[i] == init[i];
      }
    }
  }

  lemma PresentPosition<T>(xs: seq<Option<T>>, i: nat)
    requires i < |xs| && xs[i].Some?
    ensures |Present(xs[..i])| < |Present(xs)|
    ensures Present(xs)[|Present(xs[..i])|] == xs[i].value
  {
    assert xs == xs[..i] + [xs[i]] + xs[i + 1..];
    PresentSingle(xs[i]);
    PresentAppend(xs[..i], [xs[i]]);
    PresentAppend(xs[..i] + [xs[i]], xs[i + 1..]);
  }
}
