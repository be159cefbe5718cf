# rfc-cat in Dafny

rfc-cat builds PDF volumes from a set of RFCs. It reads the RFC index (a
dictionary from doc-id such as `RFC0791` to the sets of ids the RFC updates,
obsoletes and sees also, plus its keywords). It selects doc-ids from explicit
RFC numbers and keywords. It can close that selection under the three
relations, each switched on by its own `--include-*` flag. It sorts the ids,
downloads each RFC's PDF, and packs the pages into files `<prefix>-1.pdf`,
`<prefix>-2.pdf`, … of at most `--maxpages` pages each, except a volume
that holds a single larger document.

This project models the in-memory core of `rfc-cat.py`:

- `keywords.dfy`: `rfcs_by_keyword`, a loop over the index that collects the
  ids whose keyword set meets the given keywords.
- `references.dfy`: `follow_references`, the worklist loop over `frontier` and
  `ret`, with `frontier.pop()` as an arbitrary choice. The ids reachable from
  the seeds by enabled edges (`Reachable`, defined by chains of ids) are its
  reference definition. An id that is reached but is not a key of the index
  raises `KeyError` at line 75; the model returns `Err(KeyError(id))` there.
- `volumes.dfy`: the packing loop of `build_docs`, with the running counters
  `pagenum` and `volume` and the open writer. `IsPacking` is its independent
  specification: volumes numbered from 1, holding exactly the fetched
  documents in order, page counts that add up, and every cut made where the
  next document would overflow. `PackingUnique` shows that this specification
  admits one result only.
- `ordering.dfy`: Python's `<` on `str` and `sorted` on a set of ids.
- `selection.dfy`: the selection part of `main`, which gives the sorted id
  list handed to the packer.
- `rfc_index.dfy`, `wrappers.dfy`: the index record, the three switches, the
  enabled edges, and Option/Result.

Behaviour as written, which the model keeps:

- An id reached by the closure that is not a key of the index is not a leaf.
  `rfc_index[rfc]` raises `KeyError`, so the resolver fails. This happens even
  with all three switches off, for any seed that is not a key. The resolver
  fails exactly when some reachable id is not a key (`FollowReferences`,
  `DanglingReferenceFails`).
- The split test `pagenum + numpages > maxpages` has no `pagenum > 0` guard.
  A first document larger than `maxpages` is therefore preceded by an empty
  volume 1 (`EmptyFirstVolume`, `OversizedFirstDocument`).
- The final volume is always written. No documents, or only failed fetches,
  give one empty volume 1 (`EmptyInputOneVolume`).
- `maxpages` and page counts are never validated. The model takes any
  integer budget, and a page count may be 0.

## Model

| member | source | states |
|---|---|---|
| `Keywords.RfcsByKeyword` | rfc-cat.py:60-65 | An id is in the result iff it is a key of the index whose keyword set shares at least one keyword with the input; an empty keyword set gives the empty set. |
| `References.FollowReferences` | rfc-cat.py:68-82 | On success the result holds the seeds, is closed under every enabled relation, and holds exactly the ids reachable from the seeds by enabled edges. It fails with a KeyError naming a reachable id that is not a key, and it fails iff such an id exists. It terminates on cycles and self-loops: `ret` and `frontier` stay disjoint, and `ret` grows inside a fixed finite universe. |
| `References.UpdateFrontier` | rfc-cat.py:76-81 | The three `frontier.update` calls add exactly the ids of the enabled relations of the popped record that are not yet in `ret`. |
| `References.ExpandKeepsInv` | rfc-cat.py:71-81 | One iteration keeps the worklist invariant: `ret` and `frontier` are disjoint and inside the universe, together they hold the seeds, every expanded id is a key whose enabled successors are in `ret` or `frontier`, and everything in them is reachable. |
| `References.ClosedContainsReachable` | rfc-cat.py:71-81 | Any closed set that holds the seeds holds every reachable id, which is why the final `ret` misses nothing. |
| `References.ClosureIdempotent` | rfc-cat.py:68-82 | The ids reachable from a closure are the closure itself, so running the resolver again on its own output gives that output. |
| `References.NoSwitchesNoExpansion` | rfc-cat.py:76-81 | With all three switches off, the reachable ids are exactly the seeds. |
| `References.UpdatesChainExample` | rfc-cat.py:68-82 | With C updating B and B updating A, following updates from C reaches exactly {A, B, C}. |
| `References.UpdatesCycleExample` | rfc-cat.py:71-81 | With A updating A and B, and B updating A, the closure from A is exactly {A, B}. |
| `References.DanglingReferenceFails` | rfc-cat.py:75 | A relation that names an id absent from the index makes the resolver fail. |
| `Volumes.AddDoc` | rfc-cat.py:104-117 | One fetched document either closes the open volume, when its pages overflow it, and opens the next; or it joins the open volume. The written volumes plus the open one change exactly as `Place` says. |
| `Volumes.BuildDocs` | rfc-cat.py:96-123 | The output is a greedy packing of the documents whose fetch succeeded. At least one volume is written. Concatenating the volumes gives those documents in input order, each whole and in one volume. Volumes are numbered 1, 2, … and each page count is the sum of its documents' pages. Every document that joined a volume fitted within `maxpages`. Every volume after the first starts with a document that overflowed the one before it. |
| `Volumes.PlaceKeepsPacking` | rfc-cat.py:105-117 | Placing one more document, by splitting or joining, keeps a greedy packing greedy. |
| `Volumes.PackingBudget` | rfc-cat.py:105-117 | A volume with two or more documents, or the first volume whenever it holds a document, has at most `maxpages` pages; only a later single-document volume may exceed it. |
| `Volumes.EmptyInputOneVolume` | rfc-cat.py:98-123 | With nothing to pack, exactly one empty volume numbered 1 with 0 pages is written. |
| `Volumes.EmptyFirstVolume` | rfc-cat.py:98-113 | Volume 1 is empty iff nothing is packed or the first packed document alone exceeds `maxpages`. |
| `Volumes.StripLast` | rfc-cat.py:105-117 | Every greedy packing of `ds + [d]` is `Place` applied to a greedy packing of `ds`. |
| `Volumes.PackingUnique` | rfc-cat.py:100-117 | Two greedy packings of the same documents and budget are equal: the partition is determined by its input. |
| `Volumes.AvailableSound` | rfc-cat.py:101-102 | Every packed document comes from a fetch that succeeded, with the page count that fetch gave. |
| `Volumes.AvailableComplete` | rfc-cat.py:101-102 | Every document whose fetch succeeded is packed. |
| `Volumes.ThreeDocumentExample` | rfc-cat.py:105-117 | Pages 5, 4 and 3 with a budget of 8 give volume 1 = [X] of 5 pages and volume 2 = [Y, Z] of 7 pages. |
| `Volumes.OversizedFirstDocument` | rfc-cat.py:105-113 | One document of 500 pages with a budget of 100 gives an empty volume 1 and then volume 2 holding that document, 500 pages. |
| `Ordering.LessTransitive` | rfc-cat.py:134 | Python's string order is transitive. |
| `Ordering.LessTotal` | rfc-cat.py:134 | Any two different strings are ordered one way or the other. |
| `Ordering.LessAsymmetric` | rfc-cat.py:134 | Python's string order is asymmetric. |
| `Ordering.SortIds` | rfc-cat.py:134 | `sorted` on a set gives a strictly increasing list holding exactly the set's ids, each once. |
| `Ordering.SortedUnique` | rfc-cat.py:134 | Two strictly increasing lists with the same ids are equal, so the order given to the packer depends only on the selected set. |
| `Selection.SelectRfcs` | rfc-cat.py:126-134 | The list is strictly sorted. With `--all` it holds exactly the index keys and never fails. Otherwise it holds exactly the ids reachable from "RFC"+number for each number given together with the keyword matches, and it fails iff one of those reachable ids is not a key. |

## Left out

- `fetch_rfc_index` (rfc-cat.py:37-57): an HTTP request and XML parsing. The index is a parameter, already built.
- `get_doc` (rfc-cat.py:85-93): an HTTP request and PDF parsing. Each id's outcome is an input: a page count, or None for a 404. The run aborts on any other HTTP error (`raise_for_status`), leaving the volumes already written on disk; the model does not capture this. `int(rfc[3:])` only builds the download URL.
- `PdfFileWriter`, `addPage` and the file writes (rfc-cat.py:97, 106-111, 115-123): a volume is modelled by its number, its documents and its page count. The inner page loop (lines 115-117) is collapsed to appending the whole document and adding its page count.
- `argparse`, the `__main__` entry point (rfc-cat.py:25-33, 139-140) and every `print` line.
- The `'keywords' in info` test (rfc-cat.py:63) always holds for records built by the index builder. Every model record carries a keyword set, so the test is not modelled.
- The iteration orders of Python's dict and set are not modelled. `frontier.pop()` and the scan over the index pick an arbitrary element, and the results are sets, so the contracts hold for every order.
- `sorted` is specified by its result, not by the runtime's sorting algorithm. The model builds the list by taking the least remaining id each time.
