/**
 * `--search`: `filter_definitions` keeps the index entries whose file name
 * contains every keyword, and `highlight_definitions` marks the keywords in
 * the names of what is left.  Both keep each entry's ordinal, so the
 * operator can pass the number shown to `--connect`.
 */
module Definitions {
  import opened Wrappers
  import opened Text
  import opened Scanner
  import opened Index
  import opened Matcher

  /**
   * `filter_definitions`: the entries whose lower-cased name contains every
   * lower-cased keyword, unchanged and in index order.
   */
  function FilterDefinitions(index: seq<Entry>, expressions: seq<string>): (filtered: seq<Entry>)
  {
    if index == [] then []
    else
      var last := index[|index| - 1];
      FilterDefinitions(index[..|index| - 1], expressions) + (if AndMatch(expressions, Lower(last.def.name)) then [last] else [])
  }

  /** Filtering distributes over concatenation: the survivors keep index order. */
  lemma {:induction false} FilterAppend(a: seq<Entry>, b: seq<Entry>, expressions: seq<string>)
    ensures FilterDefinitions(a + b, expressions) == FilterDefinitions(a, expressions) + FilterDefinitions(b, expressions)
  {
    if b == [] {
      assert a + b == a;
    } else {
      var n := |b| - 1;
      FilterAppend(a, b[..n], expressions);
      assert (a + b)[..|a + b| - 1] == a + b[..n];
    }
  }

  /** An entry survives iff it is in the index and its name contains every keyword, ignoring case. */
  lemma {:induction false} FilterMembership(index: seq<Entry>, expressions: seq<string>, e: Entry)
    ensures e in FilterDefinitions(index, expressions) <==>
      e in index && forall i :: 0 <= i < |expressions| ==> Contains(Lower(e.def.name), Lower(expressions[i]))
  {
    AndMatchMeaning(expressions, Lower(e.def.name));
    if index != [] {
      var n := |index| - 1;
      FilterMembership(index[..n], expressions, e);
      assert index == index[..n] + [index[n]];
    }
  }

  /** Filtering twice keeps what filtering once keeps. */
  lemma {:induction false} FilterIdempotent(index: seq<Entry>, expressions: seq<string>)
    ensures FilterDefinitions(FilterDefinitions(index, expressions), expressions) == FilterDefinitions(index, expressions)
  {
    if index != [] {
      var n := |index| - 1;
      var init := FilterDefinitions(index[..n], expressions);
      FilterIdempotent(index[..n], expressions);
      if AndMatch(expressions, Lower(index[n].def.name)) {
        assert FilterDefinitions(index, expressions) == init + [index[n]];
        FilterAppend(init, [index[n]], expressions);
        assert FilterDefinitions([index[n]], expressions) == [index[n]] by {
          assert [index[n]][..0] == [];
        }
      } else {
        assert FilterDefinitions(index, expressions) == init;
      }
    }
  }

  /** With no keywords every entry survives (the empty AND pattern matches any name). */
  lemma {:induction false} FilterNoKeywords(index: seq<Entry>)
    ensures FilterDefinitions(index, []) == index
  {
    if index != [] {
      FilterNoKeywords(index[..|index| - 1]);
    }
  }

  /**
   * The filter keeps exactly the entries whose lower-cased name the pattern
   * string `and_pattern` builds matches (keywords without ')').
   */
  lemma FilterByPattern(index: seq<Entry>, expressions: seq<string>, e: Entry)
    requires forall x :: x in expressions ==> ')' !in x
    ensures e in FilterDefinitions(index, expressions) <==>
      e in index && LookaheadsMatch(AndPattern(expressions), Lower(e.def.name))
  {
    FilterMembership(index, expressions, e);
    AndPatternMatches(expressions, Lower(e.def.name));
  }

  /** An empty keyword adds no constraint: its lookahead `(?=.*)` matches any name. */
  lemma {:induction false} FilterEmptyKeyword(index: seq<Entry>, expressions: seq<string>)
    ensures FilterDefinitions(index, expressions + [""]) == FilterDefinitions(index, expressions)
  {
    if index != [] {
      var n := |index| - 1;
      FilterEmptyKeyword(index[..n], expressions);
      var name := Lower(index[n].def.name);
      AndMatchMeaning(expressions, name);
      AndMatchMeaning(expressions + [""], name);
      var more := expressions + [""];
      assert AndMatch(more, name) <==> AndMatch(expressions, name) by {
        ContainsEmpty(name);
        assert Lower(more[|expressions|]) == "";
        assert forall i :: 0 <= i < |expressions| ==> more[i] == expressions[i];
      }
    }
  }

  /** The ordinals strictly increase along the index, so no ordinal appears twice. */
  ghost predicate Increasing(index: seq<Entry>)
  {
    forall i, j :: 0 <= i < j < |index| ==> index[i].ordinal < index[j].ordinal
  }

  /** The index `index_definitions` builds numbers its entries 1, 2, 3, ... */
  lemma IndexIncreasing(walk: seq<Listing>, extensions: set<string>)
    ensures Increasing(IndexDefinitions(walk, extensions))
  {
  }

  /** Filtering keeps the ordinals increasing. */
  lemma {:induction false} FilterIncreasing(index: seq<Entry>, expressions: seq<string>)
    requires Increasing(index)
    ensures Increasing(FilterDefinitions(index, expressions))
  {
    if index != [] {
      var n := |index| - 1;
      assert Increasing(index[..n]);
      FilterIncreasing(index[..n], expressions);
      var init := FilterDefinitions(index[..n], expressions);
      forall e | e in init ensures e.ordinal < index[n].ordinal {
        FilterMembership(index[..n], expressions, e);
      }
    }
  }

  /** With distinct ordinals, looking up `k` finds `d` iff the entry `(k, d)` is present. */
  lemma LookupUnique(index: seq<Entry>, k: int, d: Definition)
    requires Increasing(index)
    ensures Lookup(index, k) == Some(d) <==> Entry(k, d) in index
  {
    if Entry(k, d) in index {
      var r := Lookup(index, k);
      var i :| 0 <= i < |index| && index[i] == Entry(k, d);
      var j :| 0 <= j < |index| && index[j] == Entry(k, r.value);
      assert i == j;
    }
  }

  /**
   * The filtered dictionary is a sub-dictionary: ordinal `k` is still
   * there, with the same definition, iff it was there and its name holds
   * every keyword; otherwise it is gone.
   */
  lemma FilterLookup(index: seq<Entry>, expressions: seq<string>, k: int)
    requires Increasing(index)
    ensures var found := Lookup(index, k);
      Lookup(FilterDefinitions(index, expressions), k) ==
        if found.Some? && AndMatch(expressions, Lower(found.value.name)) then found else None
  {
    var filtered := FilterDefinitions(index, expressions);
    FilterIncreasing(index, expressions);
    var found, kept := Lookup(index, k), Lookup(filtered, k);
    if kept.Some? {
      FilterMembership(index, expressions, Entry(k, kept.value));
      LookupUnique(index, k, kept.value);
      AndMatchMeaning(expressions, Lower(kept.value.name));
    } else if found.Some? && AndMatch(expressions, Lower(found.value.name)) {
      FilterMembership(index, expressions, Entry(k, found.value));
      AndMatchMeaning(expressions, Lower(found.value.name));
      assert false;
    }
  }

  /** One entry as `highlight_definitions` shows it: same ordinal and directory, name highlighted. */
  function HighlightEntry(e: Entry, expressions: seq<string>, style: string, reset: string): Entry
    requires Keywords(expressions)
  {
    Entry(e.ordinal, Definition(e.def.root, Highlight(e.def.name, expressions, style, reset)))
  }

  /**
   * `highlight_definitions`: every entry, in order, with the keywords in its
   * file name wrapped in `style` and `reset`; ordinals and directories are
   * untouched.
   */
  function HighlightDefinitions(index: seq<Entry>, expressions: seq<string>, style: string, reset: string): (highlighted: seq<Entry>)
    requires Keywords(expressions)
    ensures |highlighted| == |index|
    ensures forall i :: 0 <= i < |index| ==>
      && highlighted[i].ordinal == index[i].ordinal
      && highlighted[i].def.root == index[i].def.root
      && highlighted[i].def.name == Highlight(index[i].def.name, expressions, style, reset)
  {
    seq(|index|, i requires 0 <= i < |index| => HighlightEntry(index[i], expressions, style, reset))
  }

  /** Highlighting keeps the keys: ordinal `k` is present afterwards iff it was before, in the same directory. */
  lemma {:induction false} HighlightLookup(index: seq<Entry>, expressions: seq<string>, style: string, reset: string, k: int)
    requires Keywords(expressions)
    ensures var before, after := Lookup(index, k), Lookup(HighlightDefinitions(index, expressions, style, reset), k);
      && (after.Some? <==> before.Some?)
      && (after.Some? ==> after.value == Definition(before.value.root, Highlight(before.value.name, expressions, style, reset)))
  {
    if index != [] {
      HighlightLookup(index[1..], expressions, style, reset, k);
      assert HighlightDefinitions(index, expressions, style, reset)[1..] == HighlightDefinitions(index[1..], expressions, style, reset);
    }
  }

  /**
   * With markers made of characters no file name contains, deleting them
   * from the highlighted names gives back the original names.
   */
  lemma HighlightDefinitionsStrip(index: seq<Entry>, expressions: seq<string>, style: string, reset: string, markers: set<char>, i: nat)
    requires Keywords(expressions)
    requires i < |index|
    requires forall c :: c in style ==> c in markers
    requires forall c :: c in reset ==> c in markers
    requires forall c :: c in index[i].def.name ==> c !in markers
    ensures Strip(HighlightDefinitions(index, expressions, style, reset)[i].def.name, markers) == index[i].def.name
  {
    HighlightStripMarkers(index[i].def.name, expressions, style, reset, markers);
  }

  /** Every entry `--search` shows has at least one highlighted keyword in its name. */
  lemma SearchHighlightsEveryEntry(index: seq<Entry>, expressions: seq<string>, style: string, reset: string, i: nat)
    requires Keywords(expressions)
    requires i < |FilterDefinitions(index, expressions)|
    ensures OrMatches(FilterDefinitions(index, expressions)[i].def.name, expressions) != []
  {
    var e := FilterDefinitions(index, expressions)[i];
    FilterMembership(index, expressions, e);
    LowerAllNonEmpty(expressions);
    assert Contains(Lower(e.def.name), LowerAll(expressions)[0]);
    FindIterEmpty(LowerAll(expressions), Lower(e.def.name));
  }
}
