/**
 * Repairing a definition file: `fix_broken_definition` drops every line
 * that mentions an option the client cannot handle, and writes the file
 * back only when it dropped something.  Reading and writing the file are
 * left to the caller: the lines come in as a sequence (as `readlines`
 * yields them) and the method reports what the file holds afterwards.
 */
module Repair {
  import opened Text

  /** The option the upstream definitions carry and the Linux client rejects. */
  const BrokenDefinitionOptions: seq<string> := ["block-outside-dns"]

  /** The line mentions none of the broken options. */
  predicate IsClean(line: string, brokenOptions: seq<string>)
  {
    forall o :: o in brokenOptions ==> !Contains(line, o)
  }

  /** The clean lines of `lines`, in their order. */
  function KeptLines(lines: seq<string>, brokenOptions: seq<string>): (kept: seq<string>)
  {
    if lines == [] then []
    else
      var last := lines[|lines| - 1];
      KeptLines(lines[..|lines| - 1], brokenOptions) + (if IsClean(last, brokenOptions) then [last] else [])
  }

  /** Keeping distributes over concatenation: the kept lines stay in file order. */
  lemma {:induction false} KeptLinesAppend(a: seq<string>, b: seq<string>, brokenOptions: seq<string>)
    ensures KeptLines(a + b, brokenOptions) == KeptLines(a, brokenOptions) + KeptLines(b, brokenOptions)
  {
    if b == [] {
      assert a + b == a;
    } else {
      var n := |b| - 1;
      KeptLinesAppend(a, b[..n], brokenOptions);
      assert (a + b)[..|a + b| - 1] == a + b[..n];
    }
  }

  /** A line is kept iff it is a line of the file and mentions no broken option. */
  lemma {:induction false} KeptLinesMembership(lines: seq<string>, brokenOptions: seq<string>, line: string)
    ensures line in KeptLines(lines, brokenOptions) <==> line in lines && IsClean(line, brokenOptions)
  {
    if lines != [] {
      var n := |lines| - 1;
      KeptLinesMembership(lines[..n], brokenOptions, line);
      assert lines == lines[..n] + [lines[n]];
    }
  }

  /**
   * Lines are only ever dropped, and the file keeps its length iff every
   * line is clean, in which case nothing changes at all.
   */
  lemma {:induction false} KeptLinesLength(lines: seq<string>, brokenOptions: seq<string>)
    ensures |KeptLines(lines, brokenOptions)| <= |lines|
    ensures |KeptLines(lines, brokenOptions)| == |lines| <==> forall i :: 0 <= i < |lines| ==> IsClean(lines[i], brokenOptions)
    ensures (forall i :: 0 <= i < |lines| ==> IsClean(lines[i], brokenOptions)) ==> KeptLines(lines, brokenOptions) == lines
  {
    if lines != [] {
      var n := |lines| - 1;
      KeptLinesLength(lines[..n], brokenOptions);
      assert lines == lines[..n] + [lines[n]];
      if forall i :: 0 <= i < |lines| ==> IsClean(lines[i], brokenOptions) {
        assert forall i :: 0 <= i < n ==> lines[..n][i] == lines[i];
      }
      if |KeptLines(lines, brokenOptions)| == |lines| {
        forall i | 0 <= i < |lines| ensures IsClean(lines[i], brokenOptions) {
          if i < n { assert lines[..n][i] == lines[i]; }
        }
      }
    }
  }

  /** Every kept line is clean: repairing a repaired file finds nothing to drop and leaves it alone. */
  lemma KeptLinesClean(lines: seq<string>, brokenOptions: seq<string>)
    ensures var kept := KeptLines(lines, brokenOptions);
      forall i :: 0 <= i < |kept| ==> IsClean(kept[i], brokenOptions)
  {
    var kept := KeptLines(lines, brokenOptions);
    forall i | 0 <= i < |kept| ensures IsClean(kept[i], brokenOptions) {
      KeptLinesMembership(lines, brokenOptions, kept[i]);
    }
  }

  /** A second pass keeps every line the first pass kept. */
  lemma KeptLinesIdempotent(lines: seq<string>, brokenOptions: seq<string>)
    ensures KeptLines(KeptLines(lines, brokenOptions), brokenOptions) == KeptLines(lines, brokenOptions)
  {
    KeptLinesClean(lines, brokenOptions);
    KeptLinesLength(KeptLines(lines, brokenOptions), brokenOptions);
  }

  /** With no broken options every line is kept. */
  lemma {:induction false} KeptLinesNoOptions(lines: seq<string>)
    ensures KeptLines(lines, []) == lines
  {
    if lines != [] {
      KeptLinesNoOptions(lines[..|lines| - 1]);
    }
  }

  /**
   * With the program's own option list, a line is kept iff it is a line of
   * the definition and does not mention `block-outside-dns`.
   */
  lemma BlockOutsideDnsDropped(lines: seq<string>, line: string)
    ensures line in KeptLines(lines, BrokenDefinitionOptions) <==> line in lines && !Contains(line, "block-outside-dns")
  {
    KeptLinesMembership(lines, BrokenDefinitionOptions, line);
    assert BrokenDefinitionOptions[0] in BrokenDefinitionOptions;
  }

  /**
   * `fix_broken_definition`: collect the clean lines and write them back
   * when fewer lines remain.  `content` is what the file holds afterwards
   * and `rewritten` says whether it was written.
   */
  method FixBrokenDefinition(lines: seq<string>, brokenOptions: seq<string>)
    returns (content: seq<string>, rewritten: bool)
    ensures content == KeptLines(lines, brokenOptions)
    ensures rewritten <==> exists i :: 0 <= i < |lines| && !IsClean(lines[i], brokenOptions)
    ensures !rewritten ==> content == lines
  {
    var fixed: seq<string> := [];
    for i := 0 to |lines|
      invariant fixed == KeptLines(lines[..i], brokenOptions)
    {
      assert lines[..i + 1][..i] == lines[..i];
      if forall o :: o in brokenOptions ==> !Contains(lines[i], o) {
        fixed := fixed + [lines[i]];
      }
    }
    assert lines[..|lines|] == lines;
    KeptLinesLength(lines, brokenOptions);
    if |fixed| < |lines| {
      content, rewritten := fixed, true;
    } else {
      content, rewritten := lines, false;
    }
  }
}
