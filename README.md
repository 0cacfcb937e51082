# vpnonline, modelled in Dafny

`vpnonline.py` is a command-line front end to OpenVPN for one provider's
connection definitions (`.ovpn` files). This project models the logic that
runs between the downloaded files and the launch of `openvpn`, and proves
properties of it:

- **Scanner** (`scanner.dfy`): `list_files`. It walks the definitions tree
  and keeps each `(directory, file name)` pair whose `os.path.splitext`
  extension is allowed. The method is proved against a reference filter.
- **Index** (`index.dfy`): `index_definitions`. It sorts the pairs with
  Python's tuple and string order and numbers them from 1. This module also
  covers the `--connect k` dispatch: nothing for an absent or zero `k`,
  "no such connection" for a missing ordinal, a launch otherwise.
- **Matcher** (`matcher.dfy`): `or_pattern`, `and_pattern` and
  `highlight_expressions`. It covers what the OR and AND patterns match when
  the keywords are literal text. The `finditer` scan is left to right and
  takes the first listed alternative. The highlighting loop is proved against
  a reference join of the parts.
- **Definitions** (`definitions.dfy`): `filter_definitions` and
  `highlight_definitions`. These are the `--search` path over the ordered
  index.
- **Repair** (`repair.dfy`): `fix_broken_definition`. It drops lines that
  mention a broken option and rewrites the file only when something was
  dropped.
- `text.dfy` holds `str.lower` (ASCII) and Python's substring test.
  `wrappers.dfy` holds `Option`.

How Python concepts are modelled:

- The ordered dictionary the program passes around is a sequence of
  `Entry(ordinal, def)` in insertion order. `indexed[k]` is `Lookup`.
- The directory walk is an input: one `Listing(root, files)` per directory,
  in walk order.
- The colour codes are the `style` and `reset` parameters. They come from
  `colorama` when it imports, and are `'['` and `']'` otherwise.
- File contents are the sequence of lines that `readlines` returns.

Empty keywords, as the code handles them:

- With no keywords, `and_pattern` is the empty string and `regex.match`
  accepts every name, so `FilterNoKeywords` proves that every entry
  survives. An empty keyword gives `(?=.*)`, which accepts every name, so
  among other keywords it adds no constraint (`FilterEmptyKeyword`).
- An empty OR pattern matches the empty string at every position. An empty
  keyword among others matches the empty string at every position where no
  earlier-listed keyword matches. The highlighter is therefore modelled
  only for one or more non-empty keywords. `--search` always passes at
  least one value; see "Left out".

## Model

| member | source | states |
|---|---|---|
| Scanner.ExtensionCharacterised | vpnonline.py:53 | the extension is empty iff no dot of the last path component (after its leading dots) starts one, and otherwise it is the suffix from the last such dot: `os.path.splitext` on POSIX |
| Scanner.ScanMembership | vpnonline.py:50-56 | a pair is listed iff its directory was walked with that file in it and the file's extension is allowed |
| Scanner.ListFiles | vpnonline.py:50-56 | the nested loop yields exactly the reference selection over the walk, in walk order; a pair is yielded iff it was visited and its extension is allowed |
| Scanner.WalkedMembership | vpnonline.py:51-52 | the pairs of the walk are exactly the files of the visited directories |
| Scanner.SelectedMembership | vpnonline.py:55-56 | the extension test keeps a pair iff its extension is in the allowed set |
| Index.StrLeTotal | vpnonline.py:133 | Python's string order, used by `sorted`, is total |
| Index.StrLeAntisymmetric | vpnonline.py:133 | Python's string order is antisymmetric |
| Index.StrLeTransitive | vpnonline.py:133 | Python's string order is transitive |
| Index.DefLeTotalOrder | vpnonline.py:133 | tuple order on `(root, name)` is reflexive, total, antisymmetric and transitive |
| Index.SortSpec | vpnonline.py:133 | `sorted` yields an ordered permutation of the scanned pairs |
| Index.SortedUnique | vpnonline.py:133 | two ordered permutations of the same pairs are equal, so the sorted list is unique |
| Index.IndexDefinitions | vpnonline.py:132-134 | the index has one entry per scanned pair; entry i has ordinal i+1; the definitions are sorted and are a permutation of the scanned pairs |
| Index.IndexIgnoresWalkOrder | vpnonline.py:132-134 | the index depends only on the multiset of scanned pairs, not on the order of `os.walk` |
| Index.Lookup | vpnonline.py:219 | a hit returns a definition whose entry has that ordinal; a miss means no entry has that ordinal |
| Index.LookupIndex | vpnonline.py:132-134 | the keys of the index are exactly 1..N, and key k maps to the k-th sorted pair |
| Index.Connect | vpnonline.py:217-233 | nothing happens iff the option is absent or 0; a launch names an indexed definition; "no such connection" is reported for exactly the ordinals not in the index |
| Index.ConnectOnIndex | vpnonline.py:217-233 | on a built index, `--connect k` launches the k-th sorted pair iff 1 <= k <= N and reports no such connection otherwise |
| Matcher.OrPatternAlternatives | vpnonline.py:66-67 | splitting the OR pattern at `|` gives back the lower-cased keywords in order |
| Matcher.AndPatternLookaheads | vpnonline.py:69-70 | reading the AND pattern back gives one `(?=.*k)` per lower-cased keyword, in order |
| Matcher.AndPatternMatches | vpnonline.py:69-70 | the pattern string `and_pattern` builds matches a text iff every lower-cased keyword occurs in it; it is read as its lookahead groups, with literal keywords without `)` |
| Matcher.MatchAtSpec | vpnonline.py:73 | the alternation matches at a position iff some keyword occurs there, and it takes the first listed one |
| Matcher.FindIterMatches | vpnonline.py:77 | each `finditer` span is exactly what the alternation matches at the span's start |
| Matcher.FindIterComplete | vpnonline.py:77 | every position where a keyword occurs lies inside some span, so no match is missed |
| Matcher.FindIterEmpty | vpnonline.py:77 | `finditer` finds nothing iff no keyword occurs in the text |
| Matcher.OrMatches | vpnonline.py:73-77 | the spans are non-empty, inside the text, and strictly left to right with no overlap |
| Matcher.HighlightExpressions | vpnonline.py:72-88 | the loop's joined parts equal the reference highlighting; a text containing no keyword comes back unchanged |
| Matcher.HighlightNoMatch | vpnonline.py:72-88 | with no keyword in the lower-cased text, the highlighted text is the text |
| Matcher.MarkedPartsAt | vpnonline.py:78-82 | the four parts for span j are the gap since the previous span, `style`, the span's original text, and `reset` |
| Matcher.HighlightRoundTrip | vpnonline.py:72-88 | with the `style` and `reset` parts removed, the parts join back to the input text, whatever the markers are |
| Matcher.HighlightMarksKeywords | vpnonline.py:77-82 | each marked span holds the original text, and its lower-cased form is the first listed keyword occurring there |
| Matcher.HighlightStripMarkers | vpnonline.py:72-88 | if the markers' characters do not occur in the text, deleting them from the output gives back the text |
| Definitions.FilterMembership | vpnonline.py:136-141 | an entry survives iff it is in the index and its lower-cased name contains every lower-cased keyword |
| Definitions.FilterAppend | vpnonline.py:138-141 | filtering commutes with concatenation, so survivors keep index order |
| Definitions.FilterIdempotent | vpnonline.py:136-141 | filtering twice equals filtering once |
| Definitions.FilterNoKeywords | vpnonline.py:137-141 | with no keywords, every entry survives |
| Definitions.FilterEmptyKeyword | vpnonline.py:136-141 | adding an empty keyword, whose lookahead `(?=.*)` accepts any name, changes nothing: the filter keeps the same entries as without it |
| Definitions.FilterByPattern | vpnonline.py:136-141 | an entry survives iff it is in the index and the `and_pattern` string matches its lower-cased name |
| Definitions.IndexIncreasing | vpnonline.py:134 | the ordinals of a built index strictly increase |
| Definitions.FilterIncreasing | vpnonline.py:136-141 | filtering keeps the ordinals strictly increasing, so none is renumbered or duplicated |
| Definitions.LookupUnique | vpnonline.py:219 | with distinct ordinals, lookup finds d at k iff the entry (k, d) is present |
| Definitions.FilterLookup | vpnonline.py:136-141 | the filtered dictionary is a sub-dictionary: key k keeps its definition iff it was present and its name holds every keyword, and is absent otherwise |
| Definitions.HighlightDefinitions | vpnonline.py:143-146 | same number of entries in the same order; each keeps its ordinal and directory, and its name becomes `highlight_expressions` of the name |
| Definitions.HighlightLookup | vpnonline.py:143-146 | highlighting keeps the key set; key k's entry keeps its directory, and its name becomes the highlighted name |
| Definitions.HighlightDefinitionsStrip | vpnonline.py:143-146 | deleting marker characters from a highlighted name gives back the original name |
| Definitions.SearchHighlightsEveryEntry | vpnonline.py:211-213 | every entry that `--search` shows has at least one highlighted keyword in its name |
| Repair.KeptLinesMembership | vpnonline.py:104-106 | a line is kept iff it is a line of the file and contains no broken option |
| Repair.KeptLinesAppend | vpnonline.py:104-106 | keeping commutes with concatenation, so kept lines stay in file order |
| Repair.KeptLinesLength | vpnonline.py:108 | lines are only dropped; the count stays the same iff every line is clean, and then the lines are unchanged |
| Repair.KeptLinesClean | vpnonline.py:104-106 | every kept line is clean |
| Repair.KeptLinesIdempotent | vpnonline.py:98-110 | a second pass drops nothing |
| Repair.KeptLinesNoOptions | vpnonline.py:105 | with an empty option list, every line is kept |
| Repair.FixBrokenDefinition | vpnonline.py:98-110 | the file afterwards holds exactly the clean lines, in order; it is rewritten iff some line contains a broken option |
| Repair.BlockOutsideDnsDropped | vpnonline.py:41-44 | with the program's option list, a line is kept iff it is a line of the definition and does not contain `block-outside-dns` |

## Left out

- Everything that touches the outside world is not modelled:
  - file reads and writes, `os.walk`, `os.path.join`, `zipfile`
  - the download, `subprocess`, `argparse`, `sudo` checks, `input`, `print`
  - the launch of `openvpn`
  Each operation takes the data it would read as a parameter instead.
- `print_definitions`, `clear_directory`, `write_credentials`,
  `fetch_definitions`, `extract_definitions`, `fix_broken_definitions` and
  `prepare_definitions` are not modelled. They only do I/O or chain the
  modelled operations over files.
- The order in which `os.walk` visits directories is not modelled. It is an
  input, and `Index.IndexIgnoresWalkOrder` shows that the index does not
  depend on it.
- Regular expressions are general in the source, but keywords are modelled
  as literal text:
  - metacharacters in a keyword (`.`, `*`, `(`, `|`, ...) are not
    interpreted;
  - `.` in `(?=.*k)` not matching a newline is not modelled.
- Matcher.AndPatternMatches and Definitions.FilterByPattern are stated only
  for keywords without `)`. With an unbalanced `)`, Python raises
  `re.error`. With balanced
  parentheses the keyword is read as a regex group, which the
  literal-keyword model does not interpret (see the metacharacters above).
- `Text.Lower` lower-cases only the ASCII letters `A`–`Z`. Python's Unicode
  case mapping (including characters whose lower case has a different
  length) is not modelled.
- Matcher.HighlightExpressions requires at least one keyword and no empty
  keyword. `--search` always passes at least one value. An empty keyword
  makes Python's pattern match the empty string between characters, which
  the model does not cover.
- Definitions.HighlightDefinitions takes `style` and `reset` as parameters.
  It does not model the choice between the `colorama` codes and the `'['`
  and `']'` fallback.
- Repair.FixBrokenDefinition takes the lines as `readlines` returns them.
  It does not model splitting the file into lines or writing them back.
