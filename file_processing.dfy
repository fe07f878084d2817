/** The new-file detector of `file_processing.py`: a listing of file names is compared
    with the set of names already seen, which the detector updates in place. */
module FileProcessing {
  import opened Strings

  /** The names of `listing` that are new against `seen`, each once, in listing order:
      what `find_new_txt_files` returns. */
  function NewNames(listing: seq<string>, seen: set<string>): seq<string>
    decreases |listing|
  {
    if listing == [] then []
    else
      var init := listing[..|listing| - 1];
      var name := listing[|listing| - 1];
      if name in seen || name in init then NewNames(init, seen) else NewNames(init, seen) + [name]
  }

  /** `xs` is `ys` with some entries left out, the rest in their order. */
  predicate Subsequence(xs: seq<string>, ys: seq<string>)
    decreases |ys|
  {
    if xs == [] then true
    else if ys == [] then false
    else if xs[|xs| - 1] == ys[|ys| - 1] then Subsequence(xs[..|xs| - 1], ys[..|ys| - 1])
    else Subsequence(xs, ys[..|ys| - 1])
  }

  /** The state `find_new_txt_files` works on: the `processed_files` set. */
  class ProcessedFiles {
    var names: set<string>

    constructor (initial: set<string>)
      ensures names == initial
    {
      names := initial;
    }

    /** `find_new_txt_files`: every listed name not yet seen is returned and added. */
    method FindNewTxtFiles(listing: seq<string>) returns (newFiles: seq<string>)
      modifies this
      ensures newFiles == NewNames(listing, old(names))
      ensures forall x :: x in names <==> x in old(names) || x in listing
      ensures old(names) <= names
    {
      ghost var seen := names;
      newFiles := [];
      var j := 0;
      while j < |listing|
        invariant 0 <= j <= |listing|
        invariant newFiles == NewNames(listing[..j], seen)
        invariant forall x :: x in names <==> x in seen || x in listing[..j]
      {
        var name := listing[j];
        NewNamesStep(listing, j, seen);
        if name !in names {
          names := names + {name};
          newFiles := newFiles + [name];
        }
        j := j + 1;
      }
      assert listing[..|listing|] == listing;
    }
  }

  lemma NewNamesStep(listing: seq<string>, j: nat, seen: set<string>)
    requires j < |listing|
    ensures listing[..j + 1][..j] == listing[..j]
    ensures NewNames(listing[..j + 1], seen) ==
      if listing[j] in seen || listing[j] in listing[..j] then NewNames(listing[..j], seen)
      else NewNames(listing[..j], seen) + [listing[j]]
    ensures forall x :: x in listing[..j + 1] <==> x in listing[..j] || x == listing[j]
  {
    assert listing[..j + 1] == listing[..j] + [listing[j]];
  }

  /** A name is returned exactly when it is listed and was not seen. */
  lemma {:induction false} NewNamesIff(listing: seq<string>, seen: set<string>, x: string)
    ensures x in NewNames(listing, seen) <==> x in listing && x !in seen
    decreases |listing|
  {
    if listing != [] {
      var init := listing[..|listing| - 1];
      NewNamesIff(init, seen, x);
      assert listing == init + [listing[|listing| - 1]];
    }
  }

  /** A name listed twice is returned once. */
  lemma {:induction false} NewNamesDistinct(listing: seq<string>, seen: set<string>)
    ensures Distinct(NewNames(listing, seen))
    decreases |listing|
  {
    if listing != [] {
      var init := listing[..|listing| - 1];
      var name := listing[|listing| - 1];
      var prev := NewNames(init, seen);
      NewNamesDistinct(init, seen);
      if !(name in seen || name in init) {
        NewNamesIff(init, seen, name);
        var r := prev + [name];
        forall i, j | 0 <= i < j < |r|
          ensures r[i] != r[j]
        {
          if j == |prev| {
            assert r[i] == prev[i] && prev[i] in prev;
          } else {
            assert r[i] == prev[i] && r[j] == prev[j];
          }
        }
      }
    }
  }

  lemma {:induction false} SubsequenceSnoc(xs: seq<string>, ys: seq<string>, y: string)
    ensures Subsequence(xs, ys) ==> Subsequence(xs, ys + [y])
    decreases |ys|, 1
  {
    if xs != [] && Subsequence(xs, ys) {
      var zs := ys + [y];
      assert zs[..|zs| - 1] == ys;
      if xs[|xs| - 1] == y {
        SubsequenceDropLast(xs, ys);
      }
    }
  }

  lemma {:induction false} SubsequenceDropLast(xs: seq<string>, ys: seq<string>)
    requires xs != []
    ensures Subsequence(xs, ys) ==> Subsequence(xs[..|xs| - 1], ys)
    decreases |ys|, 0
  {
    if Subsequence(xs, ys) {
      var init := ys[..|ys| - 1];
      var xinit := xs[..|xs| - 1];
      if xs[|xs| - 1] == ys[|ys| - 1] {
        if xinit != [] {
          SubsequenceDropLast(xinit, init);
          SubsequenceSnoc(xinit[..|xinit| - 1], init, ys[|ys| - 1]);
          assert init + [ys[|ys| - 1]] == ys;
          SubsequenceSnoc(xinit, init, ys[|ys| - 1]);
        }
      } else {
        SubsequenceDropLast(xs, init);
        SubsequenceSnoc(xinit, init, ys[|ys| - 1]);
        assert init + [ys[|ys| - 1]] == ys;
      }
    }
  }

  /** The returned names keep their listing order. */
  lemma {:induction false} NewNamesInOrder(listing: seq<string>, seen: set<string>)
    ensures Subsequence(NewNames(listing, seen), listing)
    decreases |listing|
  {
    if listing != [] {
      var init := listing[..|listing| - 1];
      var name := listing[|listing| - 1];
      var prev := NewNames(init, seen);
      NewNamesInOrder(init, seen);
      assert init + [name] == listing;
      if name in seen || name in init {
        SubsequenceSnoc(prev, init, name);
      } else {
        var r := prev + [name];
        assert r[..|r| - 1] == prev;
      }
    }
  }

  /** Once every listed name has been seen, the same listing yields nothing new. */
  lemma SecondCallFindsNothing(listing: seq<string>, seen: set<string>)
    requires forall x :: x in listing ==> x in seen
    ensures NewNames(listing, seen) == []
  {
    var r := NewNames(listing, seen);
    if r != [] {
      NewNamesIff(listing, seen, r[0]);
    }
  }
}
