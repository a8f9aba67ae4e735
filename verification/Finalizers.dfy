/** An object's finalizers (HasFinalizer in internal/common/utils/utils.go and the repositories' RemoveFinalizer). */
module Finalizers {
  /** The finalizers without every occurrence of `name`. */
  function FinalizersLess(finalizers: seq<string>, name: string): seq<string> {
    if finalizers == [] then []
    else (if finalizers[0] == name then [] else [finalizers[0]]) + FinalizersLess(finalizers[1..], name)
  }

  lemma FinalizersLessExact(finalizers: seq<string>, name: string)
    ensures forall f :: f in FinalizersLess(finalizers, name) <==> f in finalizers && f != name
    ensures name !in finalizers ==> FinalizersLess(finalizers, name) == finalizers
  {
    if finalizers != [] {
      FinalizersLessExact(finalizers[1..], name);
      assert finalizers == [finalizers[0]] + finalizers[1..];
      assert [] + FinalizersLess(finalizers[1..], name) == FinalizersLess(finalizers[1..], name);
    }
  }

  lemma {:induction false} FinalizersSnoc(fs: seq<string>, f: string, name: string)
    ensures FinalizersLess(fs + [f], name) == FinalizersLess(fs, name) + (if f == name then [] else [f])
    decreases |fs|
  {
    if fs == [] {
      assert fs + [f] == [f];
      assert FinalizersLess([f], name) == (if f == name then [] else [f]) + FinalizersLess([], name) by {
        assert [f][1..] == [];
      }
    } else {
      var rest, last := fs[1..], if f == name then [] else [f];
      var first := if fs[0] == name then [] else [fs[0]];
      calc {
        FinalizersLess(fs + [f], name);
        { assert (fs + [f])[1..] == rest + [f]; }
        first + FinalizersLess(rest + [f], name);
        { FinalizersSnoc(rest, f, name); }
        first + (FinalizersLess(rest, name) + last);
        (first + FinalizersLess(rest, name)) + last;
        FinalizersLess(fs, name) + last;
      }
    }
  }

  method HasFinalizer(finalizers: seq<string>, name: string) returns (found: bool)
    ensures found <==> name in finalizers
  {
    for i := 0 to |finalizers|
      invariant name !in finalizers[..i]
    {
      if finalizers[i] == name {
        return true;
      }
    }
    return false;
  }

  method FinalizersWithout(finalizers: seq<string>, name: string) returns (kept: seq<string>)
    ensures kept == FinalizersLess(finalizers, name)
  {
    kept := [];
    for i := 0 to |finalizers|
      invariant kept == FinalizersLess(finalizers[..i], name)
    {
      assert finalizers[..i + 1] == finalizers[..i] + [finalizers[i]];
      FinalizersSnoc(finalizers[..i], finalizers[i], name);
      if finalizers[i] != name {
        kept := kept + [finalizers[i]];
      }
    }
    assert finalizers[..|finalizers|] == finalizers;
  }
}
