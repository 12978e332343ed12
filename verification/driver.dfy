/**
 The script's main loop over the working directory, as a trace of the
 effects it has on files: a backup copy, then either a warning (file left
 alone) or a rewrite. Directory listing, copying and writing are abstract
 actions; the directory itself is a list of already-parsed entries.
 */
module Driver {
  import opened Frame
  import opened Registry
  import opened Selection

  datatype Entry = Entry(name: string, content: Table)

  datatype Action =
    | Backup(file: string, copy: Table)
    | Warn(file: string, missing: seq<string>)
    | Write(file: string, table: Table)

  /** The action that records a transform's outcome for `file`. */
  function Report(file: string, o: Outcome): (a: Action)
    ensures a.file == file && !a.Backup?
    ensures a.Warn? <==> o.Skip?
    ensures a.Warn? ==> a.missing == o.missing
    ensures a.Write? ==> a.table == o.table
  {
    match o
    case Skip(missing) => Warn(file, missing)
    case Rewrite(t) => Write(file, t)
  }

  /** One turn of the loop: nothing for an unselected name; otherwise a
      backup of the file as it is, then the outcome of the transform. */
  function ProcessFile(e: Entry, symbols: seq<Cell>, step: Table -> Outcome): (actions: seq<Action>)
    ensures actions == [] <==> !Selected(e.name, symbols)
    ensures actions != [] ==>
              && |actions| == 2
              && actions[0] == Backup(e.name, e.content)
              && actions[1].file == e.name
              && (actions[1].Warn? <==> step(e.content).Skip?)
  {
    if !Selected(e.name, symbols) then []
    else [Backup(e.name, e.content), Report(e.name, step(e.content))]
  }

  /** The whole loop, in listing order. Every action concerns a selected
      file, and backups sit exactly at the even positions. */
  function Run(dir: seq<Entry>, symbols: seq<Cell>, step: Table -> Outcome): (trace: seq<Action>)
    ensures forall k :: 0 <= k < |trace| ==> Selected(trace[k].file, symbols)
    ensures forall k :: 0 <= k < |trace| ==> (trace[k].Backup? <==> k % 2 == 0)
    ensures |trace| % 2 == 0
  {
    if dir == [] then []
    else
      var before := Run(dir[..|dir| - 1], symbols, step);
      var here := ProcessFile(dir[|dir| - 1], symbols, step);
      assert here == [] || (|here| == 2 && here[0].Backup? && !here[1].Backup? &&
                            Selected(here[0].file, symbols) && Selected(here[1].file, symbols));
      var h := |before| / 2;
      assert |before| == 2 * h;
      assert forall k :: 0 <= k < |before| ==> (before + here)[k] == before[k];
      assert here != [] ==> (before + here)[2 * h] == here[0] && (before + here)[2 * h + 1] == here[1];
      assert (2 * h) % 2 == 0 && (2 * h + 1) % 2 == 1;
      before + here
  }

  /** The trace of a listing prefix is a prefix of the trace. */
  lemma {:induction false} RunPrefix(dir: seq<Entry>, symbols: seq<Cell>, step: Table -> Outcome, q: nat)
    requires q <= |dir|
    ensures Run(dir[..q], symbols, step) <= Run(dir, symbols, step)
  {
    if q < |dir| {
      var n := |dir| - 1;
      RunPrefix(dir[..n], symbols, step, q);
      assert dir[..n][..q] == dir[..q];
      assert Run(dir, symbols, step) == Run(dir[..n], symbols, step) + ProcessFile(dir[n], symbols, step);
    } else {
      assert dir[..q] == dir;
    }
  }

  /** Every selected file is backed up exactly as it was found, and the very
      next action is its warning (with the missing columns) or its write
      (with the shifted table). */
  lemma RunCovers(dir: seq<Entry>, symbols: seq<Cell>, step: Table -> Outcome, p: nat)
    requires p < |dir| && Selected(dir[p].name, symbols)
    ensures var k := |Run(dir[..p], symbols, step)|;
            && k + 1 < |Run(dir, symbols, step)|
            && Run(dir, symbols, step)[k] == Backup(dir[p].name, dir[p].content)
            && Run(dir, symbols, step)[k + 1] == Report(dir[p].name, step(dir[p].content))
  {
    RunPrefix(dir, symbols, step, p + 1);
    assert dir[..p + 1][..p] == dir[..p];
    assert Run(dir[..p + 1], symbols, step) == Run(dir[..p], symbols, step) + ProcessFile(dir[p], symbols, step);
  }

  /** The ordering fact: whatever is not a backup is immediately preceded by
      the backup of the same file. */
  lemma {:induction false} BackupPrecedes(dir: seq<Entry>, symbols: seq<Cell>, step: Table -> Outcome, k: nat)
    requires k < |Run(dir, symbols, step)| && !Run(dir, symbols, step)[k].Backup?
    ensures 0 < k && Run(dir, symbols, step)[k - 1].Backup?
    ensures Run(dir, symbols, step)[k - 1].file == Run(dir, symbols, step)[k].file
  {
    var n := |dir| - 1;
    var before := Run(dir[..n], symbols, step);
    var here := ProcessFile(dir[n], symbols, step);
    assert Run(dir, symbols, step) == before + here;
    if k < |before| {
      BackupPrecedes(dir[..n], symbols, step, k);
    } else {
      assert k == |before| + 1;
    }
  }

  /** Every action comes from a listed entry with that name: a backup holds
      that entry's content, a warning lists the columns its table lacks, a
      write holds its transformed table. */
  lemma {:induction false} ActionOrigin(dir: seq<Entry>, symbols: seq<Cell>, step: Table -> Outcome, k: nat)
    requires k < |Run(dir, symbols, step)|
    ensures exists p :: 0 <= p < |dir| && dir[p].name == Run(dir, symbols, step)[k].file &&
              Run(dir, symbols, step)[k] in ProcessFile(dir[p], symbols, step)
  {
    var n := |dir| - 1;
    var init := dir[..n];
    var trace := Run(dir, symbols, step);
    assert trace == Run(init, symbols, step) + ProcessFile(dir[n], symbols, step);
    if k < |Run(init, symbols, step)| {
      ActionOrigin(init, symbols, step, k);
      var p :| 0 <= p < |init| && init[p].name == Run(init, symbols, step)[k].file &&
               Run(init, symbols, step)[k] in ProcessFile(init[p], symbols, step);
      assert dir[p] == init[p];
    } else {
      assert trace[k] == ProcessFile(dir[n], symbols, step)[k - |Run(init, symbols, step)|];
    }
  }

  predicate DistinctNames(dir: seq<Entry>) {
    forall p, q :: 0 <= p < q < |dir| ==> dir[p].name != dir[q].name
  }

  /** In a directory (names are distinct) a file skipped for missing columns
      is never written. */
  lemma SkippedNeverWritten(dir: seq<Entry>, symbols: seq<Cell>, step: Table -> Outcome, p: nat)
    requires DistinctNames(dir) && p < |dir|
    requires step(dir[p].content).Skip?
    ensures forall a :: a in Run(dir, symbols, step) ==> !(a.Write? && a.file == dir[p].name)
  {
    var trace := Run(dir, symbols, step);
    forall a | a in trace
      ensures !(a.Write? && a.file == dir[p].name)
    {
      var k :| 0 <= k < |trace| && trace[k] == a;
      ActionOrigin(dir, symbols, step, k);
      var q :| 0 <= q < |dir| && dir[q].name == a.file && a in ProcessFile(dir[q], symbols, step);
      var pf := ProcessFile(dir[q], symbols, step);
      assert a == pf[0] || a == pf[1];
      if q != p {
        assert dir[q].name != dir[p].name;
      } else {
        assert pf[1].Warn?;
      }
    }
  }

  /** File contents after applying a trace: writes replace, backups and
      warnings leave the working directory alone. */
  function Replay(files: map<string, Table>, trace: seq<Action>): map<string, Table> {
    if trace == [] then files
    else
      var prior := Replay(files, trace[..|trace| - 1]);
      match trace[|trace| - 1]
      case Write(f, t) => prior[f := t]
      case _ => prior
  }

  lemma {:induction false} ReplayAppend(files: map<string, Table>, a: seq<Action>, b: seq<Action>)
    ensures Replay(files, a + b) == Replay(Replay(files, a), b)
    decreases |b|
  {
    if b == [] {
      assert a + b == a;
    } else {
      var n := |b| - 1;
      assert (a + b)[..|a + b| - 1] == a + b[..n];
      ReplayAppend(files, a, b[..n]);
    }
  }

  /** The directory as a name-to-content map. */
  function DirMap(dir: seq<Entry>): (files: map<string, Table>)
    ensures forall f :: f in files <==> exists p :: 0 <= p < |dir| && dir[p].name == f
    ensures DistinctNames(dir) ==>
              forall p :: 0 <= p < |dir| ==> files[dir[p].name] == dir[p].content
  {
    if dir == [] then map[]
    else
      var n := |dir| - 1;
      var init := dir[..n];
      assert forall p :: 0 <= p < n ==> init[p] == dir[p];
      DirMap(init)[dir[n].name := dir[n].content]
  }

  /** What one entry's file holds at the end of the run, given what it held
      at the start. */
  function Expected(e: Entry, symbols: seq<Cell>, step: Table -> Outcome, before: Table): Table {
    if Selected(e.name, symbols) && step(e.content).Rewrite? then step(e.content).table
    else before
  }

  /** Replaying one turn of the loop changes the file only on a rewrite. */
  lemma ReplayProcessFile(files: map<string, Table>, e: Entry, symbols: seq<Cell>, step: Table -> Outcome)
    ensures Replay(files, ProcessFile(e, symbols, step)) ==
              if Selected(e.name, symbols) && step(e.content).Rewrite?
              then files[e.name := step(e.content).table]
              else files
  {
    var pf := ProcessFile(e, symbols, step);
    if Selected(e.name, symbols) {
      assert pf[..1] == [pf[0]];
      assert [pf[0]][..0] == [];
      assert Replay(files, pf[..1]) == files;
    }
  }

  /** A file no listed entry names is left as it was. */
  lemma {:induction false} ReplayRunUntouched(files: map<string, Table>, dir: seq<Entry>, symbols: seq<Cell>, step: Table -> Outcome, f: string)
    requires forall p :: 0 <= p < |dir| ==> dir[p].name != f
    ensures var after := Replay(files, Run(dir, symbols, step));
            (f in after <==> f in files) && (f in files ==> after[f] == files[f])
  {
    if dir != [] {
      var n := |dir| - 1;
      var init := dir[..n];
      forall p | 0 <= p < n
        ensures init[p].name != f
      {
        assert init[p] == dir[p];
      }
      ReplayRunUntouched(files, init, symbols, step, f);
      var mid := Replay(files, Run(init, symbols, step));
      var here := ProcessFile(dir[n], symbols, step);
      assert Run(dir, symbols, step) == Run(init, symbols, step) + here;
      ReplayAppend(files, Run(init, symbols, step), here);
      ReplayProcessFile(mid, dir[n], symbols, step);
      assert dir[n].name != f;
    }
  }

  /** A listed file ends up as its own turn of the loop left it. */
  lemma {:induction false} ReplayRunAt(files: map<string, Table>, dir: seq<Entry>, symbols: seq<Cell>, step: Table -> Outcome, p: nat)
    requires DistinctNames(dir) && p < |dir| && dir[p].name in files
    ensures var after := Replay(files, Run(dir, symbols, step));
            dir[p].name in after && after[dir[p].name] == Expected(dir[p], symbols, step, files[dir[p].name])
  {
    var n := |dir| - 1;
    var init := dir[..n];
    var f := dir[p].name;
    assert forall q :: 0 <= q < n ==> init[q] == dir[q];
    var mid := Replay(files, Run(init, symbols, step));
    ReplayAppend(files, Run(init, symbols, step), ProcessFile(dir[n], symbols, step));
    ReplayProcessFile(mid, dir[n], symbols, step);
    if p == n {
      ReplayRunUntouched(files, init, symbols, step, f);
    } else {
      assert DistinctNames(init);
      ReplayRunAt(files, init, symbols, step, p);
    }
  }

  /** The end state of a run over a directory: the same files; a file whose
      transform rewrote it holds the shifted table; every other file (not
      selected, or skipped for missing columns) holds what it held before. */
  lemma RunFinalState(dir: seq<Entry>, symbols: seq<Cell>, step: Table -> Outcome, p: nat)
    requires DistinctNames(dir) && p < |dir|
    ensures Replay(DirMap(dir), Run(dir, symbols, step)).Keys == DirMap(dir).Keys
    ensures var after := Replay(DirMap(dir), Run(dir, symbols, step));
            after[dir[p].name] == Expected(dir[p], symbols, step, dir[p].content)
  {
    var files := DirMap(dir);
    var after := Replay(files, Run(dir, symbols, step));
    ReplayRunAt(files, dir, symbols, step, p);
    forall f
      ensures f in after <==> f in files
    {
      if f in files {
        var q :| 0 <= q < |dir| && dir[q].name == f;
        ReplayRunAt(files, dir, symbols, step, q);
      } else {
        ReplayRunUntouched(files, dir, symbols, step, f);
      }
    }
  }

  /** One more listed name extends the trace by that name's turn, and the
      replayed files by that turn's write, if any. */
  lemma RunStep(dir: seq<Entry>, symbols: seq<Cell>, step: Table -> Outcome, i: nat)
    requires i < |dir|
    ensures Run(dir[..i + 1], symbols, step) == Run(dir[..i], symbols, step) + ProcessFile(dir[i], symbols, step)
    ensures var files := Replay(DirMap(dir), Run(dir[..i], symbols, step));
            Replay(DirMap(dir), Run(dir[..i + 1], symbols, step)) ==
              if Selected(dir[i].name, symbols) && step(dir[i].content).Rewrite?
              then files[dir[i].name := step(dir[i].content).table]
              else files
  {
    assert dir[..i + 1][..i] == dir[..i];
    ReplayAppend(DirMap(dir), Run(dir[..i], symbols, step), ProcessFile(dir[i], symbols, step));
    ReplayProcessFile(Replay(DirMap(dir), Run(dir[..i], symbols, step)), dir[i], symbols, step);
  }

  /** One pass of the loop body as the script writes it: leave an unselected
      name alone; otherwise back the file up, then either warn (the
      `continue`) or write the shifted table over it. */
  method VisitFile(e: Entry, symbols: seq<Cell>, step: Table -> Outcome, trace: seq<Action>, files: map<string, Table>)
    returns (trace': seq<Action>, files': map<string, Table>)
    ensures trace' == trace + ProcessFile(e, symbols, step)
    ensures files' == if Selected(e.name, symbols) && step(e.content).Rewrite?
                       then files[e.name := step(e.content).table]
                       else files
  {
    trace' := trace;
    files' := files;
    if !Selected(e.name, symbols) {
      assert trace + [] == trace;
      return;
    }
    trace' := trace' + [Backup(e.name, e.content)];
    var o := step(e.content);
    match o {
      case Skip(missing) =>
        trace' := trace' + [Warn(e.name, missing)];
      case Rewrite(t) =>
        trace' := trace' + [Write(e.name, t)];
        files' := files'[e.name := t];
    }
    assert trace' == trace + [Backup(e.name, e.content), Report(e.name, o)];
  }

  /** The script's `for file_name in os.listdir('.')` loop, over the listing
      in the order given. It also returns the files as they stand afterwards. */
  method ProcessDirectory(dir: seq<Entry>, symbols: seq<Cell>, step: Table -> Outcome) returns (trace: seq<Action>, files: map<string, Table>)
    ensures trace == Run(dir, symbols, step)
    ensures files == Replay(DirMap(dir), trace)
  {
    trace := [];
    files := DirMap(dir);
    var i := 0;
    while i < |dir|
      invariant 0 <= i <= |dir|
      invariant trace == Run(dir[..i], symbols, step)
      invariant files == Replay(DirMap(dir), trace)
    {
      RunStep(dir, symbols, step, i);
      trace, files := VisitFile(dir[i], symbols, step, trace, files);
      i := i + 1;
    }
    assert dir[..|dir|] == dir;
  }

  /** The script end to end: symbols from the registry's "bitget" lines,
      `Transform` as the per-file step. Each file ends up shifted when it was
      selected and had all four sentiment columns, and as it was otherwise. */
  lemma ScriptFinalState(dir: seq<Entry>, assets: seq<Asset>, p: nat)
    requires DistinctNames(dir) && p < |dir|
    ensures var after := Replay(DirMap(dir), Run(dir, BitgetSymbols(assets), Transform));
            var o := Transform(dir[p].content);
            && dir[p].name in after
            && after[dir[p].name] ==
                 if Selected(dir[p].name, BitgetSymbols(assets)) && o.Rewrite? then o.table
                 else dir[p].content
  {
    RunFinalState(dir, BitgetSymbols(assets), Transform, p);
  }
}
