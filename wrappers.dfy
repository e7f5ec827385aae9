/** The optional value used wherever the annotation code reads a key that may be absent,
    or performs a step (a lookup, a conversion) that may raise; and the
    "keep what converts" list walk built on it. */
module Wrappers {

  datatype Option<+T> = None | Some(value: T)

  /** `x` converted by `f`, as a list of zero or one elements. */
  function Kept<T, R>(f: T -> Option<R>, x: T): (r: seq<R>)
    ensures |r| <= 1
  {
    match f(x)
    case Some(y) => [y]
    case None => []
  }

  /** The elements of `xs` that `f` converts, converted, in order. */
  function FilterMap<T, R>(f: T -> Option<R>, xs: seq<T>): (r: seq<R>)
    ensures |r| <= |xs|
  {
    if xs == [] then [] else FilterMap(f, xs[..|xs| - 1]) + Kept(f, xs[|xs| - 1])
  }

  /** Walking two runs one after the other gives the results of the first run
      followed by those of the second: the walk keeps the input order. */
  lemma {:induction false} FilterMapAppend<T, R>(f: T -> Option<R>, xs: seq<T>, ys: seq<T>)
    ensures FilterMap(f, xs + ys) == FilterMap(f, xs) + FilterMap(f, ys)
  {
    if ys == [] {
      assert xs + ys == xs;
    } else {
      var init, last := ys[..|ys| - 1], ys[|ys| - 1];
      FilterMapAppend(f, xs, init);
      assert ys == init + [last];
      assert xs + ys == (xs + init) + [last];
      FilterMapSnoc(f, xs + init, last);
      FilterMapSnoc(f, init, last);
      Assoc(FilterMap(f, xs), FilterMap(f, init), Kept(f, last));
    }
  }

  lemma Assoc<R>(a: seq<R>, b: seq<R>, c: seq<R>)
    ensures a + b + c == a + (b + c)
  {
  }

  /** One more element at the end adds its conversion at the end. */
  lemma FilterMapSnoc<T, R>(f: T -> Option<R>, xs: seq<T>, x: T)
    ensures FilterMap(f, xs + [x]) == FilterMap(f, xs) + Kept(f, x)
  {
    assert (xs + [x])[..|xs|] == xs;
  }

  /** An element is kept exactly when `f` converts it. */
  lemma FilterMapSingle<T, R>(f: T -> Option<R>, x: T)
    ensures FilterMap(f, [x]) == if f(x).Some? then [f(x).value] else []
  {
    assert [x][..0] == [];
  }
}
