/**
  How updateHostsFile.py settles which extensions a run uses, and the key
  under which that run's figures are filed in the readme data.
*/
module Settings {
  import opened Text

  // ---------------------------------------------------------------------
  // Python's ordering of strings: by code point, a proper prefix first.

  predicate Less(a: string, b: string)
    decreases |a|
  {
    if |a| == 0 then |b| > 0
    else if |b| == 0 then false
    else if a[0] != b[0] then a[0] < b[0]
    else Less(a[1..], b[1..])
  }

  lemma {:induction false} LessIrreflexive(a: string)
    ensures !Less(a, a)
    decreases |a|
  {
    if |a| > 0 {
      LessIrreflexive(a[1..]);
    }
  }

  lemma {:induction false} LessTransitive(a: string, b: string, c: string)
    requires Less(a, b) && Less(b, c)
    ensures Less(a, c)
    decreases |a|
  {
    if |a| > 0 && a[0] == b[0] && b[0] == c[0] {
      LessTransitive(a[1..], b[1..], c[1..]);
    }
  }

  lemma {:induction false} LessTotal(a: string, b: string)
    ensures a == b || Less(a, b) || Less(b, a)
    decreases |a|
  {
    if |a| > 0 && |b| > 0 && a[0] == b[0] {
      LessTotal(a[1..], b[1..]);
      if a[1..] == b[1..] {
        assert a == [a[0]] + a[1..] && b == [b[0]] + b[1..];
      }
    }
  }

  /** Each element is smaller than every later one. */
  predicate StrictlySorted(xs: seq<string>) {
    forall i, j :: 0 <= i < j < |xs| ==> Less(xs[i], xs[j])
  }

  /** Puts `x` in its place in a sorted sequence, unless it is already there. */
  function Insert(x: string, xs: seq<string>): (r: seq<string>)
    requires StrictlySorted(xs)
    ensures StrictlySorted(r)
    ensures forall y :: y in r <==> y == x || y in xs
    decreases |xs|
  {
    if |xs| == 0 then [x]
    else if x == xs[0] then xs
    else if Less(x, xs[0]) then
      assert forall j :: 0 < j < |xs| ==> Less(x, xs[j]) by {
        forall j | 0 < j < |xs| ensures Less(x, xs[j]) {
          LessTransitive(x, xs[0], xs[j]);
        }
      }
      [x] + xs
    else
      LessTotal(x, xs[0]);
      var rest := Insert(x, xs[1..]);
      assert forall y :: y in xs[1..] ==> Less(xs[0], y);
      assert xs == [xs[0]] + xs[1..];
      [xs[0]] + rest
  }

  /** Sorts the elements of `xs`, dropping repetitions. */
  function SortDistinct(xs: seq<string>): (r: seq<string>)
    ensures StrictlySorted(r)
    ensures forall y :: y in r <==> y in xs
    decreases |xs|
  {
    if |xs| == 0 then []
    else
      var r := Insert(xs[|xs| - 1], SortDistinct(xs[..|xs| - 1]));
      assert xs == xs[..|xs| - 1] + [xs[|xs| - 1]];
      r
  }

  /** Two strictly sorted sequences with the same elements start alike. */
  lemma HeadsAgree(xs: seq<string>, ys: seq<string>)
    requires |xs| > 0 && |ys| > 0
    requires StrictlySorted(xs) && StrictlySorted(ys)
    requires forall y :: y in xs <==> y in ys
    ensures xs[0] == ys[0]
  {
    if xs[0] != ys[0] {
      assert xs[0] in xs && ys[0] in ys;
      var i :| 0 <= i < |xs| && xs[i] == ys[0];
      var j :| 0 <= j < |ys| && ys[j] == xs[0];
      assert Less(xs[0], xs[i]) && Less(ys[0], ys[j]);
      LessTransitive(xs[0], ys[0], xs[0]);
      LessIrreflexive(xs[0]);
    }
  }

  /** Two strictly sorted sequences with the same elements are the same sequence. */
  lemma {:induction false} SortedUnique(xs: seq<string>, ys: seq<string>)
    requires StrictlySorted(xs) && StrictlySorted(ys)
    requires forall y :: y in xs <==> y in ys
    ensures xs == ys
    decreases |xs|
  {
    if |xs| > 0 {
      assert xs[0] in ys;
    }
    if |ys| > 0 {
      assert ys[0] in xs;
    }
    if |xs| > 0 {
      HeadsAgree(xs, ys);
      forall y
        ensures y in xs[1..] <==> y in ys[1..]
      {
        LessIrreflexive(y);
        if y in xs[1..] {
          var i :| 0 <= i < |xs[1..]| && xs[1..][i] == y;
          assert Less(xs[0], xs[i + 1]);
          assert y in ys;
          var j :| 0 <= j < |ys| && ys[j] == y;
          assert j != 0 && ys[1..][j - 1] == y;
        }
        if y in ys[1..] {
          var i :| 0 <= i < |ys[1..]| && ys[1..][i] == y;
          assert Less(ys[0], ys[i + 1]);
          assert y in xs;
          var j :| 0 <= j < |xs| && xs[j] == y;
          assert j != 0 && xs[1..][j - 1] == y;
        }
      }
      SortedUnique(xs[1..], ys[1..]);
      assert xs == [xs[0]] + xs[1..] && ys == [ys[0]] + ys[1..];
    }
  }

  /**
    `sorted(list(set(requested).intersection(available)))`: the extensions
    asked for on the command line that exist as extension folders, sorted,
    each once.
  */
  function SelectExtensions(requested: seq<string>, available: seq<string>): (r: seq<string>)
    ensures StrictlySorted(r)
    ensures forall e :: e in r <==> e in requested && e in available
  {
    SortDistinct(Filter(requested, available))
  }

  /** The elements of `xs` that also occur in `keep`, in order. */
  function Filter(xs: seq<string>, keep: seq<string>): (r: seq<string>)
    ensures forall e :: e in r <==> e in xs && e in keep
    decreases |xs|
  {
    if |xs| == 0 then []
    else
      var rest := Filter(xs[1..], keep);
      assert xs == [xs[0]] + xs[1..];
      if xs[0] in keep then [xs[0]] + rest else rest
  }

  /** The selection depends only on which names are requested and available. */
  lemma SelectionIsCanonical(requested: seq<string>, available: seq<string>, r: seq<string>)
    requires StrictlySorted(r)
    requires forall e :: e in r <==> e in requested && e in available
    ensures SelectExtensions(requested, available) == r
  {
    SortedUnique(SelectExtensions(requested, available), r);
  }

  // ---------------------------------------------------------------------
  // The readme key.

  /** `updateReadmeData`'s key: `"base"`, or the extensions joined by `-`. */
  function ReadmeKey(extensions: seq<string>): (key: string)
    ensures extensions == [] ==> key == "base"
  {
    if extensions == [] then "base" else JoinWith("-", extensions)
  }

  /** With no `-` inside any name, the extensions can be read back from the key. */
  lemma ReadmeKeyRoundTrip(extensions: seq<string>)
    requires extensions != []
    requires forall k, m :: 0 <= k < |extensions| && 0 <= m < |extensions[k]| ==> extensions[k][m] != '-'
    ensures SplitOn(ReadmeKey(extensions), '-') == extensions
  {
    SplitOnJoin(extensions, '-');
  }
}
