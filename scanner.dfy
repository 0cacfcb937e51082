/**
 * The definition store scanner: `list_files` walks a directory tree and
 * yields every `(root, name)` pair whose file extension is allowed.  The
 * directory walk itself is an input: one `Listing` per directory visited,
 * in the order the walk produced them.
 */
module Scanner {
  import opened Text

  /** A definition file, located by its directory and its file name. */
  datatype Definition = Definition(root: string, name: string)

  /** One step of the directory walk: a directory and the file names in it. */
  datatype Listing = Listing(root: string, files: seq<string>)

  /**
   * `d` is the dot that starts the extension of `name`: it is the last dot,
   * it lies in the last path component, and that component has a character
   * other than a dot before it (leading dots do not start an extension).
   */
  ghost predicate ExtensionDot(name: string, d: int)
  {
    && 0 <= d < |name| && name[d] == '.'
    && (forall m :: d < m < |name| ==> name[m] != '.' && name[m] != '/')
    && exists j :: 0 <= j < d && name[j] != '.' && name[j] != '/' && NoSeparator(name, j, d)
  }

  /** No '/' strictly between `j` and `d`. */
  ghost predicate NoSeparator(name: string, j: int, d: int)
    requires 0 <= j <= d <= |name|
  {
    forall m :: j < m < d ==> name[m] != '/'
  }

  /**
   * The extension part of `os.path.splitext(name)` (POSIX separators):
   * the suffix from the last dot, including the dot, or "" when there is no
   * dot after the last '/' or only dots precede it in the last component.
   */
  function Extension(name: string): (ext: string)
  {
    ExtensionBefore(name, |name|)
  }

  /**
   * The extension of `name` when the last dot and the last '/' both lie
   * before `k`: scans leftwards for the last dot, giving up at a '/'.
   */
  function ExtensionBefore(name: string, k: nat): (ext: string)
    requires k <= |name|
  {
    if k == 0 then ""
    else if name[k - 1] == '/' then ""
    else if name[k - 1] == '.' then (if StemHasNonDot(name, k - 1) then name[k - 1..] else "")
    else ExtensionBefore(name, k - 1)
  }

  /**
   * Some character between the last '/' before `d` and `d` is not a dot:
   * the dot at `d` is not one of the leading dots of its component.
   */
  function StemHasNonDot(name: string, d: nat): bool
    requires d <= |name|
  {
    if d == 0 then false
    else if name[d - 1] == '/' then false
    else name[d - 1] != '.' || StemHasNonDot(name, d - 1)
  }

  /** `StemHasNonDot` finds a non-dot, non-'/' character with no '/' between it and `d`. */
  lemma {:induction false} StemHasNonDotCharacterised(name: string, d: nat)
    requires d <= |name|
    ensures StemHasNonDot(name, d) <==>
      exists j :: 0 <= j < d && name[j] != '.' && name[j] != '/' && NoSeparator(name, j, d)
  {
    if d > 0 && name[d - 1] == '.' {
      StemHasNonDotCharacterised(name, d - 1);
      if StemHasNonDot(name, d - 1) {
        var j :| 0 <= j < d - 1 && name[j] != '.' && name[j] != '/' && NoSeparator(name, j, d - 1);
        assert NoSeparator(name, j, d);
      }
      if exists j :: 0 <= j < d && name[j] != '.' && name[j] != '/' && NoSeparator(name, j, d) {
        var j :| 0 <= j < d && name[j] != '.' && name[j] != '/' && NoSeparator(name, j, d);
        assert NoSeparator(name, j, d - 1);
      }
    } else if d > 0 && name[d - 1] != '/' {
      assert NoSeparator(name, d - 1, d);
    }
  }

  /** The scan from `k` agrees with the dot-based description of an extension. */
  lemma {:induction false} ExtensionBeforeCharacterised(name: string, k: nat)
    requires k <= |name|
    requires forall m :: k <= m < |name| ==> name[m] != '.' && name[m] != '/'
    ensures ExtensionBefore(name, k) == "" <==> forall d :: !ExtensionDot(name, d)
    ensures forall d :: ExtensionDot(name, d) ==> ExtensionBefore(name, k) == name[d..]
  {
    // At k == 0 or at a '/', no dot can start an extension.
    if k > 0 && name[k - 1] == '.' {
      StemHasNonDotCharacterised(name, k - 1);
      forall d | ExtensionDot(name, d) ensures d == k - 1 {
        assert d >= k - 1;
      }
      assert ExtensionDot(name, k - 1) <==> StemHasNonDot(name, k - 1);
    } else if k > 0 && name[k - 1] != '/' {
      ExtensionBeforeCharacterised(name, k - 1);
    }
  }

  /** `Extension` agrees with the dot-based description of an extension, both ways. */
  lemma ExtensionCharacterised(name: string)
    ensures Extension(name) == "" <==> forall d :: !ExtensionDot(name, d)
    ensures forall d :: ExtensionDot(name, d) ==> Extension(name) == name[d..]
  {
    ExtensionBeforeCharacterised(name, |name|);
  }

  /** The pairs a directory with file names `files` yields, in the order of the names. */
  function Pairs(root: string, files: seq<string>): (ps: seq<Definition>)
    ensures |ps| == |files|
    ensures forall j :: 0 <= j < |ps| ==> ps[j] == Definition(root, files[j])
  {
    if files == [] then [] else Pairs(root, files[..|files| - 1]) + [Definition(root, files[|files| - 1])]
  }

  /** Every `(root, name)` pair of the walk, in walk order. */
  function Walked(walk: seq<Listing>): (ds: seq<Definition>)
  {
    if walk == [] then [] else Walked(walk[..|walk| - 1]) + Pairs(walk[|walk| - 1].root, walk[|walk| - 1].files)
  }

  /** The pairs of `ds` whose name has an allowed extension, in order. */
  function Selected(ds: seq<Definition>, extensions: set<string>): (selected: seq<Definition>)
  {
    if ds == [] then []
    else
      var last := ds[|ds| - 1];
      Selected(ds[..|ds| - 1], extensions) + (if Extension(last.name) in extensions then [last] else [])
  }

  /** Selecting from a longer walk adds at most the new pair, at the end. */
  lemma SelectedSnoc(ds: seq<Definition>, d: Definition, extensions: set<string>)
    ensures Selected(ds + [d], extensions) == Selected(ds, extensions) + (if Extension(d.name) in extensions then [d] else [])
  {
    assert (ds + [d])[..|ds|] == ds;
  }

  /** Walking one more directory appends that directory's pairs. */
  lemma WalkedPrefix(walk: seq<Listing>, i: nat)
    requires i < |walk|
    ensures Walked(walk[..i + 1]) == Walked(walk[..i]) + Pairs(walk[i].root, walk[i].files)
  {
    assert walk[..i + 1][..i] == walk[..i];
  }

  /** A directory yields a pair iff the pair names that directory and one of its files. */
  lemma {:induction false} PairsMembership(root: string, files: seq<string>, d: Definition)
    ensures d in Pairs(root, files) <==> d.root == root && d.name in files
  {
    if files != [] {
      var n := |files| - 1;
      PairsMembership(root, files[..n], d);
      assert files == files[..n] + [files[n]];
    }
  }

  /** `d` is a file of one of the directories the walk visited. */
  ghost predicate Visited(walk: seq<Listing>, d: Definition)
  {
    exists i :: 0 <= i < |walk| && walk[i].root == d.root && d.name in walk[i].files
  }

  /** The walk yields exactly the files of the directories it visited. */
  lemma {:induction false} WalkedMembership(walk: seq<Listing>, d: Definition)
    ensures d in Walked(walk) <==> Visited(walk, d)
  {
    if walk != [] {
      var n := |walk| - 1;
      WalkedMembership(walk[..n], d);
      PairsMembership(walk[n].root, walk[n].files, d);
      if Visited(walk, d) {
        var i :| 0 <= i < |walk| && walk[i].root == d.root && d.name in walk[i].files;
        if i < n {
          assert walk[..n][i] == walk[i];
        }
      }
      if Visited(walk[..n], d) {
        var i :| 0 <= i < n && walk[..n][i].root == d.root && d.name in walk[..n][i].files;
        assert walk[i] == walk[..n][i];
      }
    }
  }

  /** Selection keeps exactly the pairs whose extension is allowed. */
  lemma {:induction false} SelectedMembership(ds: seq<Definition>, extensions: set<string>, d: Definition)
    ensures d in Selected(ds, extensions) <==> d in ds && Extension(d.name) in extensions
  {
    if ds != [] {
      var n := |ds| - 1;
      SelectedMembership(ds[..n], extensions, d);
      assert ds == ds[..n] + [ds[n]];
    }
  }

  /** A pair is listed iff its directory was visited with that file in it and its extension is allowed. */
  lemma ScanMembership(walk: seq<Listing>, extensions: set<string>)
    ensures forall d :: d in Selected(Walked(walk), extensions) <==> Visited(walk, d) && Extension(d.name) in extensions
  {
    forall d ensures d in Selected(Walked(walk), extensions) <==> Visited(walk, d) && Extension(d.name) in extensions {
      SelectedMembership(Walked(walk), extensions, d);
      WalkedMembership(walk, d);
    }
  }

  /**
   * `list_files`: for every directory of the walk, for every file name in
   * it, yield the pair when the name's extension is one of `extensions`.
   */
  method ListFiles(walk: seq<Listing>, extensions: set<string>) returns (found: seq<Definition>)
    ensures found == Selected(Walked(walk), extensions)
    ensures forall d :: d in found <==> Visited(walk, d) && Extension(d.name) in extensions
  {
    found := [];
    ghost var seen: seq<Definition> := [];
    for i := 0 to |walk|
      invariant seen == Walked(walk[..i])
      invariant found == Selected(seen, extensions)
    {
      var root, files := walk[i].root, walk[i].files;
      ghost var before := seen;
      for j := 0 to |files|
        invariant seen == before + Pairs(root, files[..j])
        invariant found == Selected(seen, extensions)
      {
        var name := files[j];
        var ext := Extension(name);
        ghost var d := Definition(root, name);
        assert Selected(seen + [d], extensions) == found + (if ext in extensions then [d] else []) by {
          SelectedSnoc(seen, d, extensions);
        }
        assert before + Pairs(root, files[..j + 1]) == seen + [d] by {
          assert files[..j + 1][..j] == files[..j];
        }
        if ext in extensions {
          found := found + [Definition(root, name)];
        }
        seen := seen + [Definition(root, name)];
      }
      assert files[..|files|] == files;
      WalkedPrefix(walk, i);
    }
    assert walk[..|walk|] == walk;
    ScanMembership(walk, extensions);
  }
}
