/** A JavaScript `Set` read back with `Array.from`: a sequence without
    duplicates, in the order in which its elements were first added.
    Both transforms collect the ids they report this way. */
module InsertionSet {

  predicate Distinct<T(==)>(s: seq<T>)
  {
    forall i, j :: 0 <= i < j < |s| ==> s[i] != s[j]
  }

  /** `set.add(x)`: appends `x` unless it is already present. */
  function Add<T(==)>(acc: seq<T>, x: T): (r: seq<T>)
    ensures Distinct(acc) ==> Distinct(r)
    ensures x in r
    ensures x in acc ==> r == acc
    ensures x !in acc ==> r == acc + [x]
  {
    if x in acc then acc else acc + [x]
  }

  /** Adds every element of `xs`, left to right. */
  function AddAll<T(==)>(acc: seq<T>, xs: seq<T>): seq<T>
    decreases |xs|
  {
    if xs == [] then acc else AddAll(Add(acc, xs[0]), xs[1..])
  }

  /** `Array.from(new Set(xs))` */
  function FromSeq<T(==)>(xs: seq<T>): seq<T>
  {
    AddAll([], xs)
  }

  /** Index of the first occurrence of `x` in `xs`. */
  function FirstIndex<T(==)>(xs: seq<T>, x: T): (k: nat)
    requires x in xs
    ensures k < |xs| && xs[k] == x && x !in xs[..k]
  {
    if xs[0] == x then 0 else FirstIndex(xs[1..], x) + 1
  }

  /** Adding keeps what was there as a prefix, adds exactly the new elements,
      and introduces no duplicate. */
  lemma {:induction false} AddAllProperties<T>(acc: seq<T>, xs: seq<T>)
    ensures |acc| <= |AddAll(acc, xs)| && AddAll(acc, xs)[..|acc|] == acc
    ensures forall e :: e in AddAll(acc, xs) <==> e in acc || e in xs
    ensures Distinct(acc) ==> Distinct(AddAll(acc, xs))
    decreases |xs|
  {
    if xs != [] {
      var acc' := Add(acc, xs[0]);
      AddAllProperties(acc', xs[1..]);
      assert AddAll(acc, xs)[..|acc|] == AddAll(acc, xs)[..|acc'|][..|acc|];
      forall e ensures e in AddAll(acc, xs) <==> e in acc || e in xs {
        assert e in xs <==> e == xs[0] || e in xs[1..];
        assert e in acc' <==> e in acc || e == xs[0];
      }
    }
  }

  /** Elements that were not already in `acc` come out in the order in which
      they first occur in `xs`. */
  lemma {:induction false} AddAllOrder<T>(acc: seq<T>, xs: seq<T>, i: nat, j: nat)
    requires i < j < |AddAll(acc, xs)|
    requires AddAll(acc, xs)[j] !in acc
    ensures AddAll(acc, xs)[j] in xs
    ensures AddAll(acc, xs)[i] in acc
            || (AddAll(acc, xs)[i] in xs
                && FirstIndex(xs, AddAll(acc, xs)[i]) < FirstIndex(xs, AddAll(acc, xs)[j]))
    decreases |xs|
  {
    var r := AddAll(acc, xs);
    AddAllProperties(acc, xs);
    if xs != [] {
      var x := xs[0];
      var acc' := Add(acc, x);
      AddAllProperties(acc', xs[1..]);
      assert r[..|acc'|] == acc';
      if r[j] == x {
        assert acc' == acc + [x];
        if j > |acc| {
          AddAllNewNotIn(acc', xs[1..], j);
        }
        assert r[i] == acc[i];
      } else {
        assert r[j] !in acc';
        AddAllOrder(acc', xs[1..], i, j);
        if r[i] !in acc {
          if r[i] == x {
            assert FirstIndex(xs, r[i]) == 0;
          } else {
            assert r[i] !in acc';
          }
        }
      }
    }
  }

  /** An element at or past the prefix `acc` is not in `acc`. */
  lemma {:induction false} AddAllNewNotIn<T>(acc: seq<T>, xs: seq<T>, j: nat)
    requires |acc| <= j < |AddAll(acc, xs)|
    ensures AddAll(acc, xs)[j] !in acc
    decreases |xs|
  {
    if xs == [] {
    } else {
      var acc' := Add(acc, xs[0]);
      AddAllProperties(acc', xs[1..]);
      if j < |acc'| {
        assert j == |acc| && acc' == acc + [xs[0]];
        assert AddAll(acc, xs)[..|acc'|] == acc';
      } else {
        AddAllNewNotIn(acc', xs[1..], j);
      }
    }
  }

  /** `Array.from(new Set(xs))` holds exactly the elements of `xs`, each once,
      in first-encounter order. */
  lemma FromSeqSpec<T>(xs: seq<T>)
    ensures Distinct(FromSeq(xs))
    ensures forall e :: e in FromSeq(xs) <==> e in xs
    ensures forall i, j :: 0 <= i < j < |FromSeq(xs)| ==>
              FirstIndex(xs, FromSeq(xs)[i]) < FirstIndex(xs, FromSeq(xs)[j])
  {
    AddAllProperties([], xs);
    forall i, j | 0 <= i < j < |FromSeq(xs)|
      ensures FirstIndex(xs, FromSeq(xs)[i]) < FirstIndex(xs, FromSeq(xs)[j])
    {
      AddAllOrder([], xs, i, j);
    }
  }

  /** Adding `xs` and then `ys` is adding `xs + ys`. */
  lemma {:induction false} AddAllAppend<T>(acc: seq<T>, xs: seq<T>, ys: seq<T>)
    ensures AddAll(acc, xs + ys) == AddAll(AddAll(acc, xs), ys)
    decreases |xs|
  {
    if xs != [] {
      assert (xs + ys)[0] == xs[0] && (xs + ys)[1..] == xs[1..] + ys;
      AddAllAppend(Add(acc, xs[0]), xs[1..], ys);
    } else {
      assert xs + ys == ys;
    }
  }

  /** `s` with every occurrence of `x` removed. */
  function Without<T(==)>(s: seq<T>, x: T): (r: seq<T>)
    ensures x !in r
    ensures forall e :: e in r ==> e in s
  {
    if s == [] then [] else (if s[0] == x then [] else [s[0]]) + Without(s[1..], x)
  }

  lemma {:induction false} WithoutAppend<T>(s: seq<T>, t: seq<T>, x: T)
    ensures Without(s + t, x) == Without(s, x) + Without(t, x)
    decreases |s|
  {
    if s == [] {
      assert s + t == t;
    } else {
      assert (s + t)[0] == s[0] && (s + t)[1..] == s[1..] + t;
      WithoutAppend(s[1..], t, x);
    }
  }

  lemma {:induction false} InWithout<T>(s: seq<T>, x: T, e: T)
    requires e != x
    ensures e in Without(s, x) <==> e in s
    decreases |s|
  {
    if s != [] {
      InWithout(s[1..], x, e);
      assert e in s <==> e == s[0] || e in s[1..];
    }
  }

  /** Removing `x` before or after collecting gives the same sequence. */
  lemma {:induction false} AddAllWithout<T>(acc: seq<T>, xs: seq<T>, x: T)
    ensures AddAll(Without(acc, x), Without(xs, x)) == Without(AddAll(acc, xs), x)
    decreases |xs|
  {
    if xs != [] {
      var y := xs[0];
      var acc' := Add(acc, y);
      var rest := Without(xs[1..], x);
      AddAllWithout(acc', xs[1..], x);
      assert AddAll(acc, xs) == AddAll(acc', xs[1..]);
      if y == x {
        assert Without(xs, x) == rest;
        if y !in acc {
          WithoutAppend(acc, [y], x);
          assert Without([y], x) == [];
        }
        assert Without(acc', x) == Without(acc, x);
      } else {
        assert Without(xs, x) == [y] + rest;
        assert ([y] + rest)[0] == y && ([y] + rest)[1..] == rest;
        assert AddAll(Without(acc, x), [y] + rest) == AddAll(Add(Without(acc, x), y), rest);
        InWithout(acc, x, y);
        if y !in acc {
          WithoutAppend(acc, [y], x);
          assert Without([y], x) == [y];
        }
        assert Add(Without(acc, x), y) == Without(acc', x);
      }
    }
  }

  lemma FromSeqWithout<T>(xs: seq<T>, x: T)
    ensures FromSeq(Without(xs, x)) == Without(FromSeq(xs), x)
  {
    AddAllWithout([], xs, x);
  }

  /** Collecting elements that are all new appends them unchanged. */
  lemma {:induction false} AddAllFresh<T>(acc: seq<T>, xs: seq<T>)
    requires Distinct(acc + xs)
    ensures AddAll(acc, xs) == acc + xs
    decreases |xs|
  {
    if xs == [] {
      assert acc + xs == acc;
    } else {
      var z := acc + xs;
      assert xs[0] !in acc by {
        forall k | 0 <= k < |acc| ensures acc[k] != xs[0] {
          assert z[k] == acc[k] && z[|acc|] == xs[0];
        }
      }
      assert Add(acc, xs[0]) == acc + [xs[0]];
      assert acc + [xs[0]] + xs[1..] == z;
      AddAllFresh(acc + [xs[0]], xs[1..]);
    }
  }
}
