/**
 * The definition index: `index_definitions` sorts the scanned pairs and
 * numbers them from 1, giving the ordered table the operator refers to by
 * ordinal; `--connect k` looks an ordinal up in that table.
 */
module Index {
  import opened Wrappers
  import opened Scanner

  /** Python's `a <= b` on strings: code point by code point, a proper prefix first. */
  predicate StrLe(a: string, b: string)
  {
    |a| == 0 || (|b| > 0 && (a[0] < b[0] || (a[0] == b[0] && StrLe(a[1..], b[1..]))))
  }

  lemma {:induction false} StrLeReflexive(a: string)
    ensures StrLe(a, a)
  {
    if |a| > 0 {
      StrLeReflexive(a[1..]);
    }
  }

  lemma {:induction false} StrLeTotal(a: string, b: string)
    ensures StrLe(a, b) || StrLe(b, a)
  {
    if |a| > 0 && |b| > 0 && a[0] == b[0] {
      StrLeTotal(a[1..], b[1..]);
    }
  }

  lemma {:induction false} StrLeAntisymmetric(a: string, b: string)
    requires StrLe(a, b) && StrLe(b, a)
    ensures a == b
  {
    if |a| > 0 && |b| > 0 {
      StrLeAntisymmetric(a[1..], b[1..]);
      assert a == [a[0]] + a[1..] && b == [b[0]] + b[1..];
    }
  }

  lemma {:induction false} StrLeTransitive(a: string, b: string, c: string)
    requires StrLe(a, b) && StrLe(b, c)
    ensures StrLe(a, c)
  {
    if |a| > 0 && |b| > 0 && |c| > 0 && a[0] == b[0] && b[0] == c[0] {
      StrLeTransitive(a[1..], b[1..], c[1..]);
    }
  }

  /** Python's `<=` on `(root, name)` tuples: by directory, then by file name. */
  predicate DefLe(x: Definition, y: Definition)
  {
    if x.root != y.root then StrLe(x.root, y.root) else StrLe(x.name, y.name)
  }

  /** `DefLe` is a total order, so sorting by it has exactly one outcome. */
  lemma DefLeTotalOrder(x: Definition, y: Definition, z: Definition)
    ensures DefLe(x, x)
    ensures DefLe(x, y) || DefLe(y, x)
    ensures DefLe(x, y) && DefLe(y, x) ==> x == y
    ensures DefLe(x, y) && DefLe(y, z) ==> DefLe(x, z)
  {
    StrLeReflexive(x.name);
    StrLeTotal(x.root, y.root);
    StrLeTotal(x.name, y.name);
    if DefLe(x, y) && DefLe(y, x) {
      if x.root != y.root {
        StrLeAntisymmetric(x.root, y.root);
      } else {
        StrLeAntisymmetric(x.name, y.name);
      }
    }
    if DefLe(x, y) && DefLe(y, z) {
      if x.root == y.root && y.root == z.root {
        StrLeTransitive(x.name, y.name, z.name);
      } else if x.root == z.root {
        StrLeAntisymmetric(x.root, y.root);
      } else if x.root != y.root && y.root != z.root {
        StrLeTransitive(x.root, y.root, z.root);
      }
    }
  }

  ghost predicate Sorted(ds: seq<Definition>)
  {
    forall i, j :: 0 <= i < j < |ds| ==> DefLe(ds[i], ds[j])
  }

  /** Inserts `d` into `ds` before the first element it does not follow. */
  function Insert(d: Definition, ds: seq<Definition>): (r: seq<Definition>)
  {
    if ds == [] then [d]
    else if DefLe(d, ds[0]) then [d] + ds
    else [ds[0]] + Insert(d, ds[1..])
  }

  /** Python's `sorted` on `(root, name)` pairs, as an insertion sort. */
  function Sort(ds: seq<Definition>): (sorted: seq<Definition>)
  {
    if ds == [] then [] else Insert(ds[0], Sort(ds[1..]))
  }

  lemma {:induction false} InsertPermutes(d: Definition, ds: seq<Definition>)
    ensures multiset(Insert(d, ds)) == multiset(ds) + multiset{d}
  {
    if ds != [] && !DefLe(d, ds[0]) {
      InsertPermutes(d, ds[1..]);
      assert ds == [ds[0]] + ds[1..];
    }
  }

  lemma {:induction false} InsertSorted(d: Definition, ds: seq<Definition>)
    requires Sorted(ds)
    ensures Sorted(Insert(d, ds))
  {
    if ds != [] {
      if DefLe(d, ds[0]) {
        forall j | 0 < j < |ds| + 1 ensures DefLe(d, ([d] + ds)[j]) {
          DefLeTotalOrder(d, ds[0], ds[j - 1]);
        }
      } else {
        var rest := Insert(d, ds[1..]);
        InsertSorted(d, ds[1..]);
        InsertPermutes(d, ds[1..]);
        forall j | 0 <= j < |rest| ensures DefLe(ds[0], rest[j]) {
          assert rest[j] in multiset(rest);
          if rest[j] == d {
            DefLeTotalOrder(d, ds[0], d);
          } else {
            assert rest[j] in ds[1..];
          }
        }
      }
    }
  }

  /** The result of `Sort` is ordered and holds exactly the input pairs. */
  lemma {:induction false} SortSpec(ds: seq<Definition>)
    ensures Sorted(Sort(ds))
    ensures multiset(Sort(ds)) == multiset(ds)
  {
    if ds != [] {
      SortSpec(ds[1..]);
      InsertSorted(ds[0], Sort(ds[1..]));
      InsertPermutes(ds[0], Sort(ds[1..]));
      assert ds == [ds[0]] + ds[1..];
    }
  }

  /** Two ordered arrangements of the same pairs start with the same pair. */
  lemma SortedHeads(a: seq<Definition>, b: seq<Definition>)
    requires Sorted(a) && Sorted(b)
    requires multiset(a) == multiset(b)
    requires a != []
    ensures b != [] && a[0] == b[0]
  {
    assert a[0] in multiset(b);
    assert b[0] in multiset(a);
    var i :| 0 <= i < |a| && a[i] == b[0];
    var j :| 0 <= j < |b| && b[j] == a[0];
    DefLeTotalOrder(a[0], b[0], a[0]);
    if i > 0 { assert DefLe(a[0], a[i]); }
    if j > 0 { assert DefLe(b[0], b[j]); }
  }

  lemma TailsPermute(a: seq<Definition>, b: seq<Definition>)
    requires a != [] && b != [] && a[0] == b[0]
    requires multiset(a) == multiset(b)
    ensures multiset(a[1..]) == multiset(b[1..])
  {
    assert a == [a[0]] + a[1..] && b == [b[0]] + b[1..];
    assert multiset(a[1..]) == multiset(a) - multiset{a[0]};
    assert multiset(b[1..]) == multiset(b) - multiset{b[0]};
  }

  /** Two ordered arrangements of the same pairs are the same sequence. */
  lemma {:induction false} SortedUnique(a: seq<Definition>, b: seq<Definition>)
    requires Sorted(a) && Sorted(b)
    requires multiset(a) == multiset(b)
    ensures a == b
  {
    if a != [] {
      SortedHeads(a, b);
      TailsPermute(a, b);
      SortedUnique(a[1..], b[1..]);
      assert a == [a[0]] + a[1..] && b == [b[0]] + b[1..];
    } else {
      assert |b| == |multiset(b)|;
    }
  }

  /** One row of the index: an ordinal and the definition it names. */
  datatype Entry = Entry(ordinal: int, def: Definition)

  /** `enumerate(ds, start)`: the pairs of `ds` numbered from `start`. */
  function Enumerate(ds: seq<Definition>, start: int): (index: seq<Entry>)
    ensures |index| == |ds|
    ensures forall i :: 0 <= i < |ds| ==> index[i] == Entry(start + i, ds[i])
  {
    seq(|ds|, i requires 0 <= i < |ds| => Entry(start + i, ds[i]))
  }

  /** The definitions of an index, in its order. */
  function Defs(index: seq<Entry>): (ds: seq<Definition>)
    ensures |ds| == |index|
    ensures forall i :: 0 <= i < |index| ==> ds[i] == index[i].def
  {
    seq(|index|, i requires 0 <= i < |index| => index[i].def)
  }

  /**
   * `index_definitions`: the scanned pairs in sorted order, numbered 1..N
   * where N is the number of pairs the scan selected.
   */
  function IndexDefinitions(walk: seq<Listing>, extensions: set<string>): (index: seq<Entry>)
    ensures |index| == |Selected(Walked(walk), extensions)|
    ensures forall i :: 0 <= i < |index| ==> index[i].ordinal == i + 1
    ensures Sorted(Defs(index))
    ensures multiset(Defs(index)) == multiset(Selected(Walked(walk), extensions))
  {
    var sorted := Sort(Selected(Walked(walk), extensions));
    SortSpec(Selected(Walked(walk), extensions));
    assert |sorted| == |multiset(sorted)|;
    assert Defs(Enumerate(sorted, 1)) == sorted;
    Enumerate(sorted, 1)
  }

  /** The index depends only on which pairs were scanned, not on the walk's order. */
  lemma IndexIgnoresWalkOrder(walk1: seq<Listing>, walk2: seq<Listing>, extensions: set<string>)
    requires multiset(Selected(Walked(walk1), extensions)) == multiset(Selected(Walked(walk2), extensions))
    ensures IndexDefinitions(walk1, extensions) == IndexDefinitions(walk2, extensions)
  {
    var s1, s2 := Selected(Walked(walk1), extensions), Selected(Walked(walk2), extensions);
    SortSpec(s1);
    SortSpec(s2);
    SortedUnique(Sort(s1), Sort(s2));
  }

  /** `index[k]` on the ordered dictionary: the definition with ordinal `k`, if any. */
  function Lookup(index: seq<Entry>, k: int): (r: Option<Definition>)
    ensures r.Some? ==> Entry(k, r.value) in index
    ensures r.None? ==> forall e :: e in index ==> e.ordinal != k
  {
    if index == [] then None
    else if index[0].ordinal == k then Some(index[0].def)
    else Lookup(index[1..], k)
  }

  /** In an enumeration from `start`, exactly the ordinals `start..start+N-1` are present. */
  lemma {:induction false} LookupEnumerated(ds: seq<Definition>, start: int, k: int)
    ensures Lookup(Enumerate(ds, start), k) == if start <= k < start + |ds| then Some(ds[k - start]) else None
  {
    if ds != [] {
      LookupEnumerated(ds[1..], start + 1, k);
      assert Enumerate(ds, start)[1..] == Enumerate(ds[1..], start + 1);
    }
  }

  /** The ordinals of the index are exactly 1..N, and ordinal k names the k-th sorted pair. */
  lemma LookupIndex(walk: seq<Listing>, extensions: set<string>, k: int)
    ensures var index := IndexDefinitions(walk, extensions);
      && (Lookup(index, k).Some? <==> 1 <= k <= |index|)
      && (1 <= k <= |index| ==> Lookup(index, k) == Some(index[k - 1].def))
  {
    LookupEnumerated(Sort(Selected(Walked(walk), extensions)), 1, k);
  }

  /** What `--connect` leads to. */
  datatype Dispatch =
    | NoConnection                      // the option is absent or 0 (falsy)
    | NoSuchConnection(ordinal: int)    // "no such connection: k"
    | Launch(def: Definition)           // openvpn is started on this definition

  /**
   * The `--connect` branch: an absent or zero ordinal does nothing, a
   * missing key reports "no such connection", a present one is launched.
   */
  function Connect(index: seq<Entry>, connect: Option<int>): (r: Dispatch)
    ensures r.NoConnection? <==> connect == None || connect == Some(0)
    ensures r.Launch? ==> connect.Some? && Entry(connect.value, r.def) in index
    ensures r.NoSuchConnection? ==> connect == Some(r.ordinal) && forall e :: e in index ==> e.ordinal != r.ordinal
  {
    match connect
    case None => NoConnection
    case Some(k) =>
      if k == 0 then NoConnection
      else match Lookup(index, k)
        case Some(d) => Launch(d)
        case None => NoSuchConnection(k)
  }

  /** On a freshly built index, `--connect k` (k != 0) launches iff 1 <= k <= N. */
  lemma ConnectOnIndex(walk: seq<Listing>, extensions: set<string>, k: int)
    requires k != 0
    ensures var index := IndexDefinitions(walk, extensions);
      && (Connect(index, Some(k)).Launch? <==> 1 <= k <= |index|)
      && (Connect(index, Some(k)).NoSuchConnection? <==> k < 0 || k > |index|)
      && (1 <= k <= |index| ==> Connect(index, Some(k)) == Launch(index[k - 1].def))
  {
    LookupIndex(walk, extensions, k);
  }
}
