/** Concatenation of a sequence of sequences. */
module Seqs {

  function Flatten<T>(ss: seq<seq<T>>): seq<T> {
    if ss == [] then [] else Flatten(ss[..|ss| - 1]) + ss[|ss| - 1]
  }

  lemma {:induction false} FlattenConcat<T>(xs: seq<seq<T>>, ys: seq<seq<T>>)
    ensures Flatten(xs + ys) == Flatten(xs) + Flatten(ys)
    decreases |ys|
  {
    if ys == [] {
      assert xs + ys == xs;
    } else {
      var init := ys[..|ys| - 1];
      FlattenConcat(xs, init);
      assert (xs + ys)[..|xs + ys| - 1] == xs + init;
    }
  }

  lemma FlattenOne<T>(x: seq<T>)
    ensures Flatten([x]) == x
  {
    assert [x][..0] == [];
    assert [] + x == x;
  }

  lemma {:induction false} MinimumExists(keys: set<int>)
    requires keys != {}
    ensures exists k :: k in keys && forall x <- keys :: k <= x
  {
    assert exists a: int :: a in keys by {
      if forall a: int :: a !in keys {
        assert false;
      }
    }
    var a: int :| a in keys;
    var rest := keys - {a};
    if rest == {} {
      assert keys == {a};
      assert forall x <- keys :: a <= x;
    } else {
      MinimumExists(rest);
      var b: int :| b in rest && forall x <- rest :: b <= x;
      var m := if a < b then a else b;
      assert m in keys;
      forall x <- keys ensures m <= x {
        assert x == a || x in rest;
      }
    }
  }

  lemma DropSnoc<T>(xs: seq<T>, k: nat, t: T, ys: seq<T>)
    requires k <= |xs|
    ensures (xs + [t])[k..] + ys == xs[k..] + ([t] + ys)
  {
  }

  lemma HasElement<T>(xs: seq<T>)
    requires xs != []
    ensures exists x :: x in xs
  {
    assert xs[0] in xs;
  }
}
