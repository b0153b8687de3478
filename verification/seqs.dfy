/** Selection and flattening of sequences, shared by the emitters. */
module Seqs {

  /** The elements of `s` that satisfy `p`, in their original order. */
  function Filter<T>(s: seq<T>, p: T -> bool): (r: seq<T>)
    ensures |r| <= |s|
    ensures forall i :: 0 <= i < |r| ==> p(r[i]) && r[i] in s
    ensures forall i :: 0 <= i < |s| && p(s[i]) ==> s[i] in r
  {
    if s == [] then [] else (if p(s[0]) then [s[0]] else []) + Filter(s[1..], p)
  }

  /** Selection keeps order: it distributes over concatenation. */
  lemma {:induction false} FilterAppend<T>(a: seq<T>, b: seq<T>, p: T -> bool)
    ensures Filter(a + b, p) == Filter(a, p) + Filter(b, p)
  {
    if a != [] {
      assert (a + b)[0] == a[0];
      assert (a + b)[1..] == a[1..] + b;
      FilterAppend(a[1..], b, p);
    } else {
      assert a + b == b;
    }
  }

  /** The groups of `ss` one after another. */
  function Flatten<T>(ss: seq<seq<T>>): seq<T>
  {
    if ss == [] then [] else ss[0] + Flatten(ss[1..])
  }

  /** The images of the elements of `s` under `f`, one after another. */
  function FlatMap<T, U>(s: seq<T>, f: T -> seq<U>): seq<U>
  {
    if s == [] then [] else f(s[0]) + FlatMap(s[1..], f)
  }

  /** When `f` gives exactly one element for what `p` selects and nothing for the rest,
      the flattened images line up one to one with the selection. */
  lemma {:induction false} FlatMapSelected<T, U>(s: seq<T>, f: T -> seq<U>, p: T -> bool)
    requires forall x :: |f(x)| == if p(x) then 1 else 0
    ensures |FlatMap(s, f)| == |Filter(s, p)|
    ensures forall i :: 0 <= i < |Filter(s, p)| ==> [FlatMap(s, f)[i]] == f(Filter(s, p)[i])
  {
    if s != [] {
      FlatMapSelected(s[1..], f, p);
      var r := FlatMap(s[1..], f);
      var k := Filter(s[1..], p);
      assert FlatMap(s, f) == f(s[0]) + r;
      assert Filter(s, p) == (if p(s[0]) then [s[0]] else []) + k;
      if p(s[0]) {
        var y := f(s[0])[0];
        assert f(s[0]) == [y];
        forall i | 0 <= i < |Filter(s, p)|
          ensures [FlatMap(s, f)[i]] == f(Filter(s, p)[i])
        {
          if i > 0 {
            assert Filter(s, p)[i] == k[i - 1];
            assert FlatMap(s, f)[i] == r[i - 1];
          }
        }
      } else {
        assert f(s[0]) == [];
        assert FlatMap(s, f) == r;
      }
    }
  }

}
