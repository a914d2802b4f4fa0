/** The consolidation step of `update_all` (scripts/isp_bot.py): every file of the processed
    directory matched by `*__normalized.csv` is read back, those that fail to load are
    skipped, and the rest are concatenated row-wise into the master frame. Reading a file is
    a parameter: the frame pandas loads from it, or None where it raises. */
module Consolidator {
  import opened Outcomes
  import opened Text
  import opened Normalizer

  /** `pd.read_csv(f, sep=";", encoding="utf-8")`; None where it raises. */
  type Reader = string -> Option<Table>

  /** The files the glob `*__normalized.csv` finds in the processed directory. */
  function NormalizedFiles(files: map<string, Table>): set<string>
  {
    set name | name in files && EndsWith(name, NormalizedSuffix)
  }

  /** The frames that load, in listing order (the list `frames`). */
  function Frames(listing: seq<string>, read: Reader): seq<Table>
  {
    Somes(seq(|listing|, i requires 0 <= i < |listing| => read(listing[i])))
  }

  /** `pd.concat(frames, ignore_index=True)`, as far as rows go: all rows, frame after frame. */
  function Concat(frames: seq<Table>): seq<Row>
  {
    if frames == [] then [] else Concat(frames[..|frames| - 1]) + frames[|frames| - 1].rows
  }

  /** The number of rows a file contributes: those of its frame, or none if it fails to load. */
  function LoadedCount(df: Option<Table>): nat
  {
    if df.Some? then |df.value.rows| else 0
  }

  /** `master_rows`: 0 without a master frame, its length otherwise. */
  function MasterRows(master: Option<seq<Row>>): nat
  {
    if master.None? then 0 else |master.value|
  }

  /** The total row count of the files in `names` that load, in no particular order. */
  ghost function RowTotal(names: set<string>, read: Reader): nat
    decreases names
  {
    if names == {} then 0
    else
      var f :| f in names;
      LoadedCount(read(f)) + RowTotal(names - {f}, read)
  }

  /** The consolidation loop and `pd.concat`: no master when no file loads, and otherwise
      the rows of the loaded files in listing order. */
  method Consolidate(listing: seq<string>, read: Reader) returns (master: Option<seq<Row>>)
    ensures master.None? <==> forall f :: f in listing ==> read(f).None?
    ensures master.Some? ==> master.value == Concat(Frames(listing, read))
  {
    master := None;
    if listing != [] {
      var frames: seq<Table> := [];
      for i := 0 to |listing|
        invariant frames == Frames(listing[..i], read)
      {
        FramesSnoc(listing, read, i);
        var df := read(listing[i]);
        if df.Some? {
          frames := frames + [df.value];
        }
      }
      assert listing[..|listing|] == listing;
      if frames != [] {
        master := Some(Concat(frames));
      }
    }
    FramesEmpty(listing, read);
  }

  /** Reading one more file adds its frame, if it loads, at the end. */
  lemma FramesSnoc(listing: seq<string>, read: Reader, i: nat)
    requires i < |listing|
    ensures Frames(listing[..i + 1], read) ==
      Frames(listing[..i], read) + (if read(listing[i]).Some? then [read(listing[i]).value] else [])
  {
    var xs := seq(i + 1, j requires 0 <= j < i + 1 => read(listing[..i + 1][j]));
    assert xs[..i] == seq(i, j requires 0 <= j < i => read(listing[..i][j]));
  }

  /** No frame loads exactly when no file of the listing loads. */
  lemma {:induction false} FramesEmpty(listing: seq<string>, read: Reader)
    ensures Frames(listing, read) == [] <==> forall f :: f in listing ==> read(f).None?
  {
    var xs := seq(|listing|, i requires 0 <= i < |listing| => read(listing[i]));
    SomesProperties(xs);
    if Frames(listing, read) == [] {
      forall f | f in listing
        ensures read(f).None?
      {
        var i :| 0 <= i < |listing| && listing[i] == f;
        assert xs[i] == read(f);
      }
    } else {
      var t := Frames(listing, read)[0];
      assert Some(t) in xs;
    }
  }

  /** The master frame has as many rows as the loaded files have, taken together. */
  lemma {:induction false} ConcatCount(listing: seq<string>, read: Reader)
    ensures |Concat(Frames(listing, read))| ==
      if listing == [] then 0
      else |Concat(Frames(listing[..|listing| - 1], read))| + LoadedCount(read(listing[|listing| - 1]))
  {
    if listing != [] {
      var n := |listing| - 1;
      FramesSnoc(listing, read, n);
      assert listing[..n + 1] == listing;
      var fs := Frames(listing[..n], read);
      assert Frames(listing, read) == Frames(listing[..n + 1], read);
      if read(listing[n]).Some? {
        var t := read(listing[n]).value;
        assert Frames(listing, read) == fs + [t];
        assert (fs + [t])[..|fs|] == fs;
        assert Concat(fs + [t]) == Concat(fs) + t.rows;
      } else {
        assert Frames(listing, read) == fs;
      }
    }
  }

  /** RowTotal does not depend on which file it takes first. */
  lemma RowTotalRemove(names: set<string>, f: string, read: Reader)
    requires f in names
    ensures RowTotal(names, read) == LoadedCount(read(f)) + RowTotal(names - {f}, read)
    decreases names
  {
    var g :| g in names && RowTotal(names, read) == LoadedCount(read(g)) + RowTotal(names - {g}, read);
    if g != f {
      RowTotalRemove(names - {g}, f, read);
      RowTotalRemove(names - {f}, g, read);
      assert names - {g} - {f} == names - {f} - {g};
    }
  }

  /** Whatever order the directory lists the normalized files in, the master frame has
      RowTotal rows. */
  lemma {:induction false} MasterRowsAnyOrder(listing: seq<string>, names: set<string>, read: Reader)
    requires forall i, j :: 0 <= i < j < |listing| ==> listing[i] != listing[j]
    requires forall f :: f in listing <==> f in names
    ensures |Concat(Frames(listing, read))| == RowTotal(names, read)
  {
    ConcatCount(listing, read);
    if listing != [] {
      var n := |listing| - 1;
      var init := listing[..n];
      MasterRowsAnyOrder(init, names - {listing[n]}, read);
      RowTotalRemove(names, listing[n], read);
    } else {
      assert names == {};
    }
  }

  /** Reading every file of `names` the same way gives the same total. */
  lemma RowTotalSameReads(names: set<string>, read1: Reader, read2: Reader)
    requires forall f :: f in names ==> LoadedCount(read1(f)) == LoadedCount(read2(f))
    ensures RowTotal(names, read1) == RowTotal(names, read2)
    decreases names
  {
    if names != {} {
      var f :| f in names;
      RowTotalRemove(names, f, read1);
      RowTotalRemove(names, f, read2);
      RowTotalSameReads(names - {f}, read1, read2);
    }
  }

  /** A normalized file that stops loading is skipped: the total loses exactly its rows. */
  lemma CorruptFileSkipped(names: set<string>, read: Reader, corrupted: Reader, f: string)
    requires f in names && corrupted(f).None?
    requires forall g :: g in names && g != f ==> corrupted(g) == read(g)
    ensures RowTotal(names, corrupted) == RowTotal(names, read) - LoadedCount(read(f))
  {
    RowTotalRemove(names, f, read);
    RowTotalRemove(names, f, corrupted);
    RowTotalSameReads(names - {f}, read, corrupted);
  }

  /** `master_rows` is 0 when no normalized file exists or none of them loads. */
  lemma RowTotalNoneLoad(names: set<string>, read: Reader)
    requires forall f :: f in names ==> read(f).None?
    ensures RowTotal(names, read) == 0
    decreases names
  {
    if names != {} {
      var f :| f in names;
      RowTotalRemove(names, f, read);
      RowTotalNoneLoad(names - {f}, read);
    }
  }

  /** The directory listing: the glob's files, each once, in some order. */
  method ListNormalized(files: map<string, Table>) returns (listing: seq<string>)
    ensures forall i, j :: 0 <= i < j < |listing| ==> listing[i] != listing[j]
    ensures forall f :: f in listing <==> f in NormalizedFiles(files)
  {
    listing := [];
    var rest := NormalizedFiles(files);
    while rest != {}
      invariant rest !! set f | f in listing
      invariant forall f :: f in NormalizedFiles(files) <==> f in rest || f in listing
      invariant forall i, j :: 0 <= i < j < |listing| ==> listing[i] != listing[j]
      decreases rest
    {
      var f :| f in rest;
      listing := listing + [f];
      rest := rest - {f};
    }
  }
}
