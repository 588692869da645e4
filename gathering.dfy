/** The shape of the loops that digest a directory's entries one by one: a
    digest for each entry the loop keeps, in listing order, or the first
    failure. */
module Gathering {
  import opened Base

  /** The digests `f` gives the items of `s` that `keep` selects, in order,
      or the failure of the first item whose digest fails. */
  function Gather<T>(f: T -> Result<Bytes>, keep: T -> bool, s: seq<T>): Result<seq<Bytes>>
  {
    if |s| == 0 then Ok([])
    else if !keep(s[0]) then Gather(f, keep, s[1..])
    else
      match f(s[0])
      case Err(e) => Err(e)
      case Ok(h) =>
        match Gather(f, keep, s[1..])
        case Err(e) => Err(e)
        case Ok(hs) => Ok([h] + hs)
  }

  /** `a` followed by `b`, failing with `a`'s failure first. */
  function Join(a: Result<seq<Bytes>>, b: Result<seq<Bytes>>): (r: Result<seq<Bytes>>)
    ensures r.Ok? <==> a.Ok? && b.Ok?
    ensures r.Ok? ==> r.value == a.value + b.value
  {
    if a.Err? then a else if b.Err? then b else Ok(a.value + b.value)
  }

  /** Gathering over two pieces one after the other is gathering over each. */
  lemma {:induction false} GatherConcat<T>(f: T -> Result<Bytes>, keep: T -> bool, s: seq<T>, t: seq<T>)
    ensures Gather(f, keep, s + t) == Join(Gather(f, keep, s), Gather(f, keep, t))
  {
    if |s| == 0 {
      assert s + t == t;
      if Gather(f, keep, t).Ok? {
        assert [] + Gather(f, keep, t).value == Gather(f, keep, t).value;
      }
    } else {
      assert (s + t)[1..] == s[1..] + t;
      GatherConcat(f, keep, s[1..], t);
      var rest := Gather(f, keep, s[1..]);
      var tail := Gather(f, keep, t);
      if keep(s[0]) && f(s[0]).Ok? && rest.Ok? && tail.Ok? {
        assert [f(s[0]).value] + (rest.value + tail.value) == ([f(s[0]).value] + rest.value) + tail.value;
      }
    }
  }

  /** Two outcomes that both fail, or both succeed with the same digests in
      some order. */
  predicate Alike(a: Result<seq<Bytes>>, b: Result<seq<Bytes>>) {
    (a.Ok? <==> b.Ok?) && (a.Ok? ==> multiset(a.value) == multiset(b.value))
  }

  /** Moving one item to the front changes at most the order of the digests. */
  lemma GatherMoveFront<T>(f: T -> Result<Bytes>, keep: T -> bool, x: T, before: seq<T>, after: seq<T>)
    ensures Alike(Gather(f, keep, before + ([x] + after)), Gather(f, keep, [x] + (before + after)))
  {
    GatherConcat(f, keep, before, [x] + after);
    GatherConcat(f, keep, [x], after);
    GatherConcat(f, keep, before, after);
    GatherConcat(f, keep, [x], before + after);
  }

  /** Putting the same item in front of two alike gatherings keeps them alike. */
  lemma GatherPrepend<T>(f: T -> Result<Bytes>, keep: T -> bool, x: T, u: seq<T>, v: seq<T>)
    requires Alike(Gather(f, keep, u), Gather(f, keep, v))
    ensures Alike(Gather(f, keep, [x] + u), Gather(f, keep, [x] + v))
  {
    GatherConcat(f, keep, [x], u);
    GatherConcat(f, keep, [x], v);
  }

  /** Gathering ignores the order of the items: it succeeds on a permutation
      exactly when it succeeds, and then yields a permutation of the digests. */
  lemma {:induction false} GatherPermutation<T>(f: T -> Result<Bytes>, keep: T -> bool, s: seq<T>, t: seq<T>)
    requires multiset(s) == multiset(t)
    ensures Gather(f, keep, s).Ok? <==> Gather(f, keep, t).Ok?
    ensures Gather(f, keep, s).Ok? ==> multiset(Gather(f, keep, s).value) == multiset(Gather(f, keep, t).value)
    decreases |s|
  {
    if |s| == 0 {
      assert |t| == |multiset(t)| == 0;
    } else {
      var x := s[0];
      assert x in multiset(t);
      var i :| 0 <= i < |t| && t[i] == x;
      var before, after := t[..i], t[i + 1..];
      assert t == before + ([x] + after);
      assert s == [x] + s[1..];
      assert multiset(t) == multiset(before) + multiset{x} + multiset(after);
      assert multiset(s[1..]) == multiset(s) - multiset{x} == multiset(before + after);
      GatherPermutation(f, keep, s[1..], before + after);
      GatherPrepend(f, keep, x, s[1..], before + after);
      GatherMoveFront(f, keep, x, before, after);
    }
  }
}
