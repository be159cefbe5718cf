/**
 * build_docs: the single-pass greedy packer that cuts the selected RFCs,
 * in the given order, into PDF volumes of at most `maxpages` pages. Fetching
 * a PDF is replaced by its outcome (a page count, or None for a 404), and a
 * written file by the Volume value it holds: its number in the file name,
 * its documents in order, and the page count printed for it.
 */
module Volumes {
  import opened Wrappers

  /** A fetched RFC: its doc-id and the number of pages of its PDF. */
  datatype Doc = Doc(id: string, pages: nat)

  /** What get_doc gave for one doc-id: a page count, or None when no PDF was found. */
  datatype Fetched = Fetched(id: string, numPages: Option<nat>)

  /** One written file `<prefix>-<number>.pdf`: the documents whose pages it
      holds, in order, and `pagenum` at the time it was written. */
  datatype Volume = Volume(number: nat, docs: seq<Doc>, pageCount: nat)

  /** The documents whose fetch succeeded, in input order. */
  function Available(fs: seq<Fetched>): (ds: seq<Doc>)
    ensures |ds| <= |fs|
  {
    if fs == [] then []
    else
      var last := fs[|fs| - 1];
      match last.numPages
      case None => Available(fs[..|fs| - 1])
      case Some(n) => Available(fs[..|fs| - 1]) + [Doc(last.id, n)]
  }

  /** The number of pages of a run of documents. */
  function TotalPages(ds: seq<Doc>): nat
  {
    if ds == [] then 0 else TotalPages(ds[..|ds| - 1]) + ds[|ds| - 1].pages
  }

  /** The documents of all volumes, volume after volume. */
  function Concat(vs: seq<Volume>): seq<Doc>
  {
    if vs == [] then [] else Concat(vs[..|vs| - 1]) + vs[|vs| - 1].docs
  }

  /** Volumes are numbered 1, 2, 3, ... in the order they are written. */
  ghost predicate Numbered(vs: seq<Volume>)
  {
    forall i :: 0 <= i < |vs| ==> vs[i].number == i + 1
  }

  /** The page count written for a volume is the sum of its documents' pages. */
  ghost predicate Tallied(vs: seq<Volume>)
  {
    forall i :: 0 <= i < |vs| ==> vs[i].pageCount == TotalPages(vs[i].docs)
  }

  /** Every document that joined the volume without closing it fitted: the
      pages already there plus its own are at most `maxpages`. When `first`
      is false the volume's first document is exempt, because it closed the
      volume before it instead of joining this one. */
  ghost predicate JoinsFit(v: Volume, first: bool, maxpages: int)
  {
    forall j :: 0 <= j < |v.docs| && (first || j > 0) ==> TotalPages(v.docs[..j]) + v.docs[j].pages <= maxpages
  }

  /** JoinsFit for every volume; only the first volume has no exempt document. */
  ghost predicate AllJoinsFit(vs: seq<Volume>, maxpages: int)
  {
    forall i :: 0 <= i < |vs| ==> JoinsFit(vs[i], i == 0, maxpages)
  }

  /** The next document would not fit in the volume before it. */
  ghost predicate Overflows(prev: Volume, next: Doc, maxpages: int)
  {
    prev.pageCount + next.pages > maxpages
  }

  /** A volume is closed only when the next document would overflow it, and
      that document opens the next volume. */
  ghost predicate SplitsOverflow(vs: seq<Volume>, maxpages: int)
  {
    forall i :: 0 < i < |vs| ==> vs[i].docs != [] && vs[i - 1].pageCount + vs[i].docs[0].pages > maxpages
  }

  /** `vs` is a greedy packing of `ds`: at least one volume is written, the
      volumes hold exactly `ds` in order, they are numbered from 1, their page
      counts add up, and every cut is where the next document would overflow. */
  ghost predicate IsPacking(ds: seq<Doc>, maxpages: int, vs: seq<Volume>)
  {
    && |vs| > 0
    && Concat(vs) == ds
    && Numbered(vs)
    && Tallied(vs)
    && AllJoinsFit(vs, maxpages)
    && SplitsOverflow(vs, maxpages)
  }

  /** One iteration of the packer on the volumes written so far plus the open
      one (the last): the document either opens a new volume, closing the
      open one, or joins the open one. */
  function Place(vs: seq<Volume>, d: Doc, maxpages: int): seq<Volume>
    requires |vs| > 0
  {
    var open := vs[|vs| - 1];
    if open.pageCount + d.pages > maxpages then
      vs + [Volume(|vs| + 1, [d], d.pages)]
    else
      vs[..|vs| - 1] + [Volume(open.number, open.docs + [d], open.pageCount + d.pages)]
  }

  /**
   * The body of the packer's loop for one fetched document: when the pages
   * already in the open writer plus the document's exceed `maxpages`, the open
   * volume is written and a new one opened (there is no `pagenum > 0` guard);
   * then the document's pages are added to the open volume. The volumes
   * written so far plus the open one change exactly as Place says.
   */
  method AddDoc(volumes: seq<Volume>, writer: seq<Doc>, pagenum: nat, volume: nat, doc: Doc, maxpages: int)
    returns (volumes': seq<Volume>, writer': seq<Doc>, pagenum': nat, volume': nat)
    requires volume == |volumes| + 1
    ensures volume' == |volumes'| + 1
    ensures volumes' + [Volume(volume', writer', pagenum')]
         == Place(volumes + [Volume(volume, writer, pagenum)], doc, maxpages)
  {
    volumes', writer', pagenum', volume' := volumes, writer, pagenum, volume;
    ghost var open := Volume(volume, writer, pagenum);
    PlaceOpen(volumes, open, doc, maxpages);
    if pagenum' + doc.pages > maxpages {
      volumes' := volumes' + [Volume(volume', writer', pagenum')];
      writer' := [];
      pagenum' := 0;
      volume' := volume' + 1;
    }
    writer' := writer' + [doc];
    pagenum' := pagenum' + doc.pages;
    if open.pageCount + doc.pages > maxpages {
      assert writer' == [doc] && volumes' == volumes + [open];
    }
  }

  /**
   * The packer. `pagenum`, `volume` and `writer` are the running counters and
   * the open PDF of the source; writing a volume appends it to `volumes`. A
   * first document larger than `maxpages` is preceded by an empty volume 1,
   * and the final volume is always written, so an empty input (or one where
   * every fetch failed) gives one empty volume.
   */
  method BuildDocs(rfcs: seq<Fetched>, maxpages: int) returns (volumes: seq<Volume>)
    ensures IsPacking(Available(rfcs), maxpages, volumes)
  {
    volumes := [];
    var writer: seq<Doc> := [];
    var pagenum: nat := 0;
    var volume: nat := 1;
    ghost var packed: seq<Doc> := [];
    NothingPacked(maxpages);
    for k := 0 to |rfcs|
      invariant packed == Available(rfcs[..k])
      invariant volume == |volumes| + 1
      invariant IsPacking(packed, maxpages, volumes + [Volume(volume, writer, pagenum)])
    {
      AvailableSnoc(rfcs[..k], rfcs[k]);
      assert rfcs[..k] + [rfcs[k]] == rfcs[..k + 1];
      var reader := rfcs[k].numPages;
      if reader.None? {
        continue;
      }
      var doc := Doc(rfcs[k].id, reader.value);
      PlaceKeepsPacking(packed, maxpages, volumes + [Volume(volume, writer, pagenum)], doc);
      volumes, writer, pagenum, volume := AddDoc(volumes, writer, pagenum, volume, doc, maxpages);
      packed := packed + [doc];
    }
    assert rfcs[..|rfcs|] == rfcs;
    volumes := volumes + [Volume(volume, writer, pagenum)];
  }

  /** Before the first document, the open volume 1 is empty. */
  lemma NothingPacked(maxpages: int)
    ensures IsPacking([], maxpages, [Volume(1, [], 0)])
  {
    assert Concat([Volume(1, [], 0)]) == Concat([]) + [];
  }

  lemma AvailableSnoc(fs: seq<Fetched>, f: Fetched)
    ensures Available(fs + [f]) == Available(fs) + (if f.numPages.Some? then [Doc(f.id, f.numPages.value)] else [])
  {
    assert (fs + [f])[..|fs|] == fs;
  }

  /** Place on the written volumes and an open one, in the loop's terms. */
  lemma PlaceOpen(done: seq<Volume>, open: Volume, d: Doc, maxpages: int)
    ensures Place(done + [open], d, maxpages) ==
      if open.pageCount + d.pages > maxpages then (done + [open]) + [Volume(|done| + 2, [d], d.pages)]
      else done + [Volume(open.number, open.docs + [d], open.pageCount + d.pages)]
  {
    assert (done + [open])[..|done|] == done;
  }

  lemma ConcatSnoc(vs: seq<Volume>, v: Volume)
    ensures Concat(vs + [v]) == Concat(vs) + v.docs
  {
    assert (vs + [v])[..|vs|] == vs;
  }

  lemma TotalPagesSnoc(ds: seq<Doc>, d: Doc)
    ensures TotalPages(ds + [d]) == TotalPages(ds) + d.pages
  {
    assert (ds + [d])[..|ds|] == ds;
  }

  lemma NumberedSnoc(vs: seq<Volume>, v: Volume)
    requires Numbered(vs) && v.number == |vs| + 1
    ensures Numbered(vs + [v])
  {
    forall i | 0 <= i < |vs| + 1 ensures (vs + [v])[i].number == i + 1 {
      if i < |vs| { assert (vs + [v])[i] == vs[i]; }
    }
  }

  lemma TalliedSnoc(vs: seq<Volume>, v: Volume)
    requires Tallied(vs) && v.pageCount == TotalPages(v.docs)
    ensures Tallied(vs + [v])
  {
    forall i | 0 <= i < |vs| + 1 ensures (vs + [v])[i].pageCount == TotalPages((vs + [v])[i].docs) {
      if i < |vs| { assert (vs + [v])[i] == vs[i]; }
    }
  }

  lemma AllJoinsFitSnoc(vs: seq<Volume>, v: Volume, maxpages: int)
    requires AllJoinsFit(vs, maxpages) && JoinsFit(v, |vs| == 0, maxpages)
    ensures AllJoinsFit(vs + [v], maxpages)
  {
    forall i | 0 <= i < |vs| + 1 ensures JoinsFit((vs + [v])[i], i == 0, maxpages) {
      if i < |vs| { assert (vs + [v])[i] == vs[i]; }
    }
  }

  lemma SplitsOverflowSnoc(vs: seq<Volume>, v: Volume, maxpages: int)
    requires SplitsOverflow(vs, maxpages)
    requires |vs| > 0 ==> v.docs != [] && Overflows(vs[|vs| - 1], v.docs[0], maxpages)
    ensures SplitsOverflow(vs + [v], maxpages)
  {
    var w := vs + [v];
    forall i | 0 < i < |w| ensures w[i].docs != [] && w[i - 1].pageCount + w[i].docs[0].pages > maxpages {
      assert w[i - 1] == vs[i - 1];
      if i < |vs| { assert w[i] == vs[i]; }
    }
  }

  /** The volumes before the open one are a greedy packing of what they hold. */
  lemma PackingButLast(vs: seq<Volume>, maxpages: int)
    requires |vs| > 0
    requires Numbered(vs) && Tallied(vs) && AllJoinsFit(vs, maxpages) && SplitsOverflow(vs, maxpages)
    ensures var u := vs[..|vs| - 1];
      Numbered(u) && Tallied(u) && AllJoinsFit(u, maxpages) && SplitsOverflow(u, maxpages)
  {
    var u := vs[..|vs| - 1];
    assert forall i :: 0 <= i < |u| ==> u[i] == vs[i];
  }

  /** A volume of one document fits unless it is not the first volume. */
  lemma SingletonJoinsFit(d: Doc, number: nat, first: bool, maxpages: int)
    requires first ==> d.pages <= maxpages
    ensures JoinsFit(Volume(number, [d], d.pages), first, maxpages)
    ensures TotalPages([d]) == d.pages
  {
    TotalPagesSnoc([], d);
    assert [] + [d] == [d];
  }

  /** A document that fits may join a volume whose joins fit. */
  lemma JoinsFitSnoc(v: Volume, first: bool, d: Doc, maxpages: int)
    requires JoinsFit(v, first, maxpages)
    requires TotalPages(v.docs) + d.pages <= maxpages
    ensures JoinsFit(Volume(v.number, v.docs + [d], v.pageCount + d.pages), first, maxpages)
  {
    var e := v.docs + [d];
    forall j | 0 <= j < |e| && (first || j > 0) ensures TotalPages(e[..j]) + e[j].pages <= maxpages {
      if j < |v.docs| {
        assert e[..j] == v.docs[..j] && e[j] == v.docs[j];
      } else {
        assert e[..j] == v.docs;
      }
    }
  }

  /** Opening a new volume for a document that overflows the open one. */
  lemma SplitKeepsPacking(ds: seq<Doc>, maxpages: int, vs: seq<Volume>, d: Doc)
    requires IsPacking(ds, maxpages, vs)
    requires vs[|vs| - 1].pageCount + d.pages > maxpages
    ensures IsPacking(ds + [d], maxpages, vs + [Volume(|vs| + 1, [d], d.pages)])
  {
    var v := Volume(|vs| + 1, [d], d.pages);
    ConcatSnoc(vs, v);
    NumberedSnoc(vs, v);
    SingletonJoinsFit(d, |vs| + 1, false, maxpages);
    TalliedSnoc(vs, v);
    AllJoinsFitSnoc(vs, v, maxpages);
    SplitsOverflowSnoc(vs, v, maxpages);
  }

  /** Adding a document that fits to the open volume. */
  lemma JoinKeepsPacking(ds: seq<Doc>, maxpages: int, vs: seq<Volume>, d: Doc)
    requires IsPacking(ds, maxpages, vs)
    requires vs[|vs| - 1].pageCount + d.pages <= maxpages
    ensures var open := vs[|vs| - 1];
      IsPacking(ds + [d], maxpages, vs[..|vs| - 1] + [Volume(open.number, open.docs + [d], open.pageCount + d.pages)])
  {
    var n := |vs|;
    var u := vs[..n - 1];
    var open := vs[n - 1];
    var v := Volume(open.number, open.docs + [d], open.pageCount + d.pages);
    assert u + [open] == vs;
    ConcatSnoc(u, open);
    ConcatSnoc(u, v);
    PackingButLast(vs, maxpages);
    TotalPagesSnoc(open.docs, d);
    NumberedSnoc(u, v);
    TalliedSnoc(u, v);
    assert JoinsFit(open, n - 1 == 0, maxpages);
    JoinsFitSnoc(open, n - 1 == 0, d, maxpages);
    AllJoinsFitSnoc(u, v, maxpages);
    if n > 1 {
      assert open.docs != [] && v.docs[0] == open.docs[0];
      assert u[n - 2] == vs[n - 2];
    }
    SplitsOverflowSnoc(u, v, maxpages);
  }

  /** Placing a document keeps a greedy packing greedy. */
  lemma PlaceKeepsPacking(ds: seq<Doc>, maxpages: int, vs: seq<Volume>, d: Doc)
    requires IsPacking(ds, maxpages, vs)
    ensures IsPacking(ds + [d], maxpages, Place(vs, d, maxpages))
  {
    if vs[|vs| - 1].pageCount + d.pages > maxpages {
      SplitKeepsPacking(ds, maxpages, vs, d);
    } else {
      JoinKeepsPacking(ds, maxpages, vs, d);
    }
  }

  /** Concat read from the front. */
  lemma {:induction false} ConcatCons(vs: seq<Volume>)
    requires |vs| > 0
    ensures Concat(vs) == vs[0].docs + Concat(vs[1..])
  {
    if |vs| > 1 {
      var u := vs[..|vs| - 1];
      ConcatCons(u);
      assert u[1..] == vs[1..][..|vs| - 2];
      assert u[0] == vs[0];
      assert vs[1..][|vs| - 2] == vs[|vs| - 1];
    } else {
      assert vs[1..] == [];
    }
  }

  /** The total of a volume is its last document's pages plus the rest. */
  lemma TotalPagesButLast(ds: seq<Doc>)
    requires |ds| > 0
    ensures TotalPages(ds) == TotalPages(ds[..|ds| - 1]) + ds[|ds| - 1].pages
  {
  }

  /** Packing budget: a volume of two or more documents, and the first volume
      whenever it holds a document, stays within `maxpages`. Only a volume
      after the first holding a single document may exceed it. */
  lemma PackingBudget(ds: seq<Doc>, maxpages: int, vs: seq<Volume>, i: nat)
    requires IsPacking(ds, maxpages, vs)
    requires i < |vs| && (|vs[i].docs| >= 2 || (i == 0 && vs[i].docs != []))
    ensures vs[i].pageCount <= maxpages
  {
    var docs := vs[i].docs;
    var j := |docs| - 1;
    assert JoinsFit(vs[i], i == 0, maxpages);
    assert TotalPages(docs[..j]) + docs[j].pages <= maxpages;
  }

  /** With nothing to pack, exactly one empty volume (volume 1) is written. */
  lemma EmptyInputOneVolume(maxpages: int, vs: seq<Volume>)
    requires IsPacking([], maxpages, vs)
    ensures vs == [Volume(1, [], 0)]
  {
    var n := |vs|;
    assert Concat(vs) == Concat(vs[..n - 1]) + vs[n - 1].docs;
    assert n == 1;
    assert vs[0].docs == [];
  }

  /** The first volume is empty exactly when there is nothing to pack or the
      first document alone exceeds `maxpages`: the split test has no guard
      for an empty writer. */
  lemma EmptyFirstVolume(ds: seq<Doc>, maxpages: int, vs: seq<Volume>)
    requires IsPacking(ds, maxpages, vs)
    ensures vs[0].docs == [] <==> ds == [] || ds[0].pages > maxpages
  {
    ConcatCons(vs);
    if vs[0].docs != [] {
      assert JoinsFit(vs[0], true, maxpages);
      assert vs[0].docs[..0] == [];
      assert ds[0] == vs[0].docs[0];
    } else if |vs| > 1 {
      ConcatCons(vs[1..]);
      assert vs[1..][0] == vs[1];
      assert TotalPages(vs[0].docs) == 0;
      assert ds[0] == vs[1].docs[0];
    } else {
      assert vs[1..] == [];
    }
  }

  /** Undoing a split: the last volume holds only `d`, which closed the one
      before it. */
  lemma StripOpened(ds: seq<Doc>, d: Doc, maxpages: int, vs: seq<Volume>)
    requires |vs| > 1 && vs[|vs| - 1].docs == [d]
    requires Concat(vs[..|vs| - 1]) == ds
    requires Numbered(vs) && Tallied(vs) && AllJoinsFit(vs, maxpages) && SplitsOverflow(vs, maxpages)
    ensures IsPacking(ds, maxpages, vs[..|vs| - 1]) && vs == Place(vs[..|vs| - 1], d, maxpages)
  {
    var n := |vs|;
    var before := vs[..n - 1];
    PackingButLast(vs, maxpages);
    SingletonJoinsFit(d, n, false, maxpages);
    assert vs[n - 2] == before[|before| - 1];
    assert before + [vs[n - 1]] == vs;
  }

  /** The open volume as it was before its last document joined it. */
  function Shrink(v: Volume): Volume
    requires |v.docs| > 0
  {
    var rest := v.docs[..|v.docs| - 1];
    Volume(v.number, rest, TotalPages(rest))
  }

  /** Removing the last document keeps the joins of a volume fitting. */
  lemma ShrinkJoinsFit(v: Volume, first: bool, maxpages: int)
    requires |v.docs| > 0 && JoinsFit(v, first, maxpages)
    ensures JoinsFit(Shrink(v), first, maxpages)
  {
    var docs := v.docs;
    var rest := docs[..|docs| - 1];
    forall j | 0 <= j < |rest| && (first || j > 0)
      ensures TotalPages(rest[..j]) + rest[j].pages <= maxpages
    {
      assert rest[..j] == docs[..j] && rest[j] == docs[j];
    }
  }

  /** The last document of a volume fitted when it joined. */
  lemma LastJoinFits(v: Volume, first: bool, maxpages: int)
    requires |v.docs| > 0 && JoinsFit(v, first, maxpages)
    requires first || |v.docs| > 1
    ensures Shrink(v).pageCount + v.docs[|v.docs| - 1].pages <= maxpages
  {
    assert v.docs[..|v.docs| - 1] == Shrink(v).docs;
  }

  /** Undoing a join leaves a greedy packing of what remains: `open` is the
      last volume without its last document. */
  lemma UnjoinPacking(maxpages: int, before: seq<Volume>, last: Volume, open: Volume)
    requires Numbered(before) && Tallied(before) && AllJoinsFit(before, maxpages) && SplitsOverflow(before, maxpages)
    requires |last.docs| > 0 && last.number == |before| + 1 && JoinsFit(last, |before| == 0, maxpages)
    requires |before| > 0 ==> |last.docs| > 1 && Overflows(before[|before| - 1], last.docs[0], maxpages)
    requires open.number == last.number && open.docs == last.docs[..|last.docs| - 1] && open.pageCount == TotalPages(open.docs)
    ensures Numbered(before + [open]) && Tallied(before + [open])
    ensures AllJoinsFit(before + [open], maxpages) && SplitsOverflow(before + [open], maxpages)
  {
    NumberedSnoc(before, open);
    TalliedSnoc(before, open);
    ShrinkJoinsFit(last, |before| == 0, maxpages);
    AllJoinsFitSnoc(before, open, maxpages);
    assert |before| > 0 ==> open.docs[0] == last.docs[0];
    SplitsOverflowSnoc(before, open, maxpages);
  }

  /** Joining `d` again gives back the volumes. */
  lemma UnjoinPlace(d: Doc, maxpages: int, before: seq<Volume>, last: Volume)
    requires |last.docs| > 0 && last.docs[|last.docs| - 1] == d && (|before| == 0 || |last.docs| > 1)
    requires last.pageCount == TotalPages(last.docs) && Shrink(last).pageCount + d.pages <= maxpages
    ensures before + [last] == Place(before + [Shrink(last)], d, maxpages)
  {
    var open := Shrink(last);
    TotalPagesButLast(last.docs);
    PlaceOpen(before, open, d, maxpages);
    assert open.docs + [d] == last.docs;
  }

  /** What a greedy packing says about its last volume. */
  lemma LastVolume(ds: seq<Doc>, maxpages: int, vs: seq<Volume>)
    requires IsPacking(ds, maxpages, vs)
    ensures var last := vs[|vs| - 1];
      && last.number == |vs| && last.pageCount == TotalPages(last.docs) && JoinsFit(last, |vs| == 1, maxpages)
      && (|vs| > 1 ==> last.docs != [] && Overflows(vs[|vs| - 2], last.docs[0], maxpages))
      && Concat(vs[..|vs| - 1]) + last.docs == ds
  {
    assert vs[..|vs| - 1] + [vs[|vs| - 1]] == vs;
    ConcatSnoc(vs[..|vs| - 1], vs[|vs| - 1]);
  }

  /** The last document of `ds + [d]` is the last one of the last volume
      holding any. */
  lemma DropLastDoc(pre: seq<Doc>, docs: seq<Doc>, ds: seq<Doc>, d: Doc)
    requires pre + docs == ds + [d] && |docs| > 0
    ensures docs[|docs| - 1] == d && pre + docs[..|docs| - 1] == ds
  {
    var rest := docs[..|docs| - 1];
    assert rest + [docs[|docs| - 1]] == docs;
    var lhs := pre + rest + [docs[|docs| - 1]];
    assert lhs == ds + [d];
    assert lhs[|ds|] == (ds + [d])[|ds|];
    assert lhs[..|ds|] == (ds + [d])[..|ds|];
  }

  /** Undoing a join: the last document of the last volume is `d`, and it
      joined that volume rather than opening it. */
  lemma StripJoined(ds: seq<Doc>, d: Doc, maxpages: int, vs: seq<Volume>) returns (u: seq<Volume>)
    requires |vs| > 0 && Numbered(vs) && Tallied(vs) && AllJoinsFit(vs, maxpages) && SplitsOverflow(vs, maxpages)
    requires var docs := vs[|vs| - 1].docs;
      |docs| > 0 && docs[|docs| - 1] == d && (|vs| == 1 || |docs| > 1)
      && Concat(vs[..|vs| - 1]) + docs[..|docs| - 1] == ds
    ensures IsPacking(ds, maxpages, u) && vs == Place(u, d, maxpages)
  {
    var n := |vs|;
    var before := vs[..n - 1];
    var last := vs[n - 1];
    PackingButLast(vs, maxpages);
    assert n > 1 ==> before[n - 2] == vs[n - 2];
    UnjoinPacking(maxpages, before, last, Shrink(last));
    ConcatSnoc(before, Shrink(last));
    LastJoinFits(last, n == 1, maxpages);
    UnjoinPlace(d, maxpages, before, last);
    assert before + [last] == vs;
    u := before + [Shrink(last)];
  }

  /** A packing of `ds + [d]` is Place applied to a packing of `ds`. */
  lemma StripLast(ds: seq<Doc>, d: Doc, maxpages: int, vs: seq<Volume>) returns (u: seq<Volume>)
    requires IsPacking(ds + [d], maxpages, vs)
    ensures IsPacking(ds, maxpages, u) && vs == Place(u, d, maxpages)
  {
    var n := |vs|;
    var before := vs[..n - 1];
    var last := vs[n - 1];
    LastVolume(ds + [d], maxpages, vs);
    assert last.docs != [] by {
      if n == 1 {
        assert Concat(before) == [];
      }
    }
    DropLastDoc(Concat(before), last.docs, ds, d);
    if n > 1 && |last.docs| == 1 {
      assert Concat(before) == Concat(before) + last.docs[..0];
      StripOpened(ds, d, maxpages, vs);
      u := before;
    } else {
      u := StripJoined(ds, d, maxpages, vs);
    }
  }

  /** Determinism: the greedy packing of a document sequence is unique, so
      IsPacking pins down BuildDocs' output completely. */
  lemma {:induction false} PackingUnique(ds: seq<Doc>, maxpages: int, vs: seq<Volume>, ws: seq<Volume>)
    requires IsPacking(ds, maxpages, vs) && IsPacking(ds, maxpages, ws)
    ensures vs == ws
  {
    if ds == [] {
      EmptyInputOneVolume(maxpages, vs);
      EmptyInputOneVolume(maxpages, ws);
    } else {
      var front, d := ds[..|ds| - 1], ds[|ds| - 1];
      assert front + [d] == ds;
      var u := StripLast(front, d, maxpages, vs);
      var t := StripLast(front, d, maxpages, ws);
      PackingUnique(front, maxpages, u, t);
    }
  }

  /** Only documents whose fetch succeeded are packed, each with the page
      count its fetch gave. */
  lemma {:induction false} AvailableSound(fs: seq<Fetched>, k: nat)
    requires k < |Available(fs)|
    ensures Fetched(Available(fs)[k].id, Some(Available(fs)[k].pages)) in fs
  {
    var front := fs[..|fs| - 1];
    var last := fs[|fs| - 1];
    assert front + [last] == fs;
    if k < |Available(front)| {
      AvailableSound(front, k);
      assert Available(fs)[k] == Available(front)[k];
    } else {
      assert last.numPages.Some? && Available(fs)[k] == Doc(last.id, last.numPages.value);
    }
  }

  /** Every document whose fetch succeeded is packed. */
  lemma {:induction false} AvailableComplete(fs: seq<Fetched>, id: string, n: nat)
    requires Fetched(id, Some(n)) in fs
    ensures Doc(id, n) in Available(fs)
  {
    var front := fs[..|fs| - 1];
    var last := fs[|fs| - 1];
    assert front + [last] == fs;
    if last != Fetched(id, Some(n)) {
      AvailableComplete(front, id, n);
    }
  }

  /** Pages 5, 4 and 3 with a budget of 8 give the volumes [X] of 5 pages and
      [Y, Z] of 7 pages. */
  lemma ThreeDocumentExample(vs: seq<Volume>)
    requires IsPacking([Doc("X", 5), Doc("Y", 4), Doc("Z", 3)], 8, vs)
    ensures vs == [Volume(1, [Doc("X", 5)], 5), Volume(2, [Doc("Y", 4), Doc("Z", 3)], 7)]
  {
    var x, y, z := Doc("X", 5), Doc("Y", 4), Doc("Z", 3);
    var p0 := [Volume(1, [], 0)];
    var p1 := [Volume(1, [x], 5)];
    var p2 := [Volume(1, [x], 5), Volume(2, [y], 4)];
    var p3 := [Volume(1, [x], 5), Volume(2, [y, z], 7)];
    assert IsPacking([x], 8, p1) by {
      NothingPacked(8);
      PlaceKeepsPacking([], 8, p0, x);
      assert [] + [x] == [x] && Place(p0, x, 8) == p1;
    }
    assert IsPacking([x, y], 8, p2) by {
      PlaceKeepsPacking([x], 8, p1, y);
      assert [x] + [y] == [x, y] && Place(p1, y, 8) == p2;
    }
    assert IsPacking([x, y, z], 8, p3) by {
      PlaceKeepsPacking([x, y], 8, p2, z);
      assert p2[..1] == [Volume(1, [x], 5)] && [y] + [z] == [y, z];
      assert [x, y] + [z] == [x, y, z] && Place(p2, z, 8) == p3;
    }
    PackingUnique([x, y, z], 8, vs, p3);
  }

  /** One document of 500 pages with a budget of 100: as written, the packer
      writes an empty volume 1 before volume 2, which holds the document. */
  lemma OversizedFirstDocument(vs: seq<Volume>)
    requires IsPacking([Doc("A", 500)], 100, vs)
    ensures vs == [Volume(1, [], 0), Volume(2, [Doc("A", 500)], 500)]
  {
    var a := Doc("A", 500);
    NothingPacked(100);
    var p0 := [Volume(1, [], 0)];
    PlaceKeepsPacking([], 100, p0, a);
    assert [] + [a] == [a];
    assert Place(p0, a, 100) == [Volume(1, [], 0), Volume(2, [a], 500)];
    PackingUnique([a], 100, vs, Place(p0, a, 100));
  }
}
