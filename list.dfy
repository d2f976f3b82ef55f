/** The subcommands of package `id` that reconcile the ID list with the source
    tree (internal/id/list.go). The file system, the per-root scans and the JSON
    codec are parameters: a `Session` holds the package-level settings of one
    command invocation together with an abstract view of the files it touches. */
module List {
  import opened IdTypes
  import opened Manage

  /** What `os.Stat` says about a path. */
  datatype StatResult = Exists | NotExist | StatFailed

  /** What the walk reports about a source root it skips. */
  datatype Report = DoesNotExist(src: string, path: string) | MayOrMayNotExist(src: string)

  /** What a per-root scan works on: the list, its reverse index and the
      list-modified flag. */
  datatype ScanState = ScanState(lu: map<TriceID, TriceFmt>, tflu: TriceFmtLookUp, listModified: bool)

  /** One request to set all IDs below a source root to zero. */
  datatype ZeroCall = ZeroCall(root: string, write: bool)

  /** How a subcommand ends: it returns an error value, or a fatal message ends
      the process. */
  datatype CmdResult = Returned(err: Option<string>) | FatalExit(msg: string)

  /** A per-root scan, as `walkSrcs` calls it. */
  type ScanFn = (string, ScanState) -> ScanState

  /** The read-only scan of one root, which does not see the list-modified flag. */
  type RefreshFn = (string, map<TriceID, TriceFmt>, TriceFmtLookUp) -> (map<TriceID, TriceFmt>, TriceFmtLookUp)

  // ---------------------------------------------------------------------------
  // What the walk over the source roots does

  /** The source roots after defaulting: "./" when none are given. */
  function DefaultSrcs(srcs: seq<string>): (r: seq<string>)
    ensures |r| > 0
    ensures |srcs| > 0 ==> r == srcs
    ensures |srcs| == 0 ==> r == ["./"]
  {
    if |srcs| == 0 then srcs + ["./"] else srcs
  }

  /** The paths the scan is called with, in order: the converted path of every
      root that exists. */
  function ExistingRoots(condPath: string -> string, stat: string -> StatResult, srcs: seq<string>): (roots: seq<string>)
    ensures |roots| <= |srcs|
    ensures forall r :: r in roots ==> stat(r) == Exists
    decreases |srcs|
  {
    if |srcs| == 0 then []
    else
      var path := condPath(srcs[0]);
      (if stat(path) == Exists then [path] else []) + ExistingRoots(condPath, stat, srcs[1..])
  }

  /** What the walk reports, in order: one line per root that does not exist or
      whose existence is unknown. */
  function Reports(condPath: string -> string, stat: string -> StatResult, srcs: seq<string>): (rs: seq<Report>)
    ensures |rs| <= |srcs|
    decreases |srcs|
  {
    if |srcs| == 0 then []
    else
      var path := condPath(srcs[0]);
      var here := match stat(path)
        case Exists => []
        case NotExist => [DoesNotExist(srcs[0], path)]
        case StatFailed => [MayOrMayNotExist(srcs[0])];
      here + Reports(condPath, stat, srcs[1..])
  }

  /** The state after calling the scan once per root, in order. */
  function Walk(f: ScanFn, roots: seq<string>, s: ScanState): (r: ScanState)
    ensures |roots| == 0 ==> r == s
    decreases |roots|
  {
    if |roots| == 0 then s else Walk(f, roots[1..], f(roots[0], s))
  }

  /** `refreshListAdapter`: the read-only scan as a per-root scan; the flag goes
      through untouched. */
  function RefreshListAdapter(refresh: RefreshFn): (f: ScanFn)
    ensures forall root, s :: f(root, s).listModified == s.listModified
    ensures forall root, s :: (f(root, s).lu, f(root, s).tflu) == refresh(root, s.lu, s.tflu)
  {
    (root: string, s: ScanState) =>
      var p := refresh(root, s.lu, s.tflu);
      ScanState(p.0, p.1, s.listModified)
  }

  // ---------------------------------------------------------------------------
  // The package-level state of one command invocation

  class Session {
    /** The source roots (`-src`); the walk adds the default root to it. */
    var Srcs: seq<string>
    /** `-dry-run`: nothing is written. */
    const DryRun: bool
    /** The contents of the ID list file; None when it cannot be read. */
    var listFile: Option<seq<byte>>
    /** How often the ID list file was written. */
    var listWrites: nat
    /** The paths handed to the per-root scan, in order. */
    var calls: seq<string>
    /** What the walk reported about skipped roots, in order. */
    var reports: seq<Report>
    /** The requests to zero the IDs of a source tree, in order. */
    var zeroCalls: seq<ZeroCall>
    /** The path conversion applied to each source root. */
    const condPath: string -> string
    /** The file system's answer to `os.Stat`. */
    const stat: string -> StatResult
    /** JSON encoding and decoding of the list. */
    const marshal: map<TriceID, TriceFmt> -> seq<byte>
    const unmarshal: seq<byte> -> Decoded

    constructor (srcs: seq<string>, dryRun: bool, file: Option<seq<byte>>, condPath: string -> string,
                 stat: string -> StatResult, marshal: map<TriceID, TriceFmt> -> seq<byte>,
                 unmarshal: seq<byte> -> Decoded)
      ensures Srcs == srcs && DryRun == dryRun && listFile == file && listWrites == 0
      ensures calls == [] && reports == [] && zeroCalls == []
      ensures this.condPath == condPath && this.stat == stat
      ensures this.marshal == marshal && this.unmarshal == unmarshal
    {
      Srcs, DryRun, listFile, listWrites := srcs, dryRun, file, 0;
      calls, reports, zeroCalls := [], [], [];
      this.condPath, this.stat, this.marshal, this.unmarshal := condPath, stat, marshal, unmarshal;
    }

    /** `ScZero`: zeroes the IDs below `srcZ`, writing only when not a dry run; an
        empty root is an error and zeroes nothing. */
    method ScZero(srcZ: string) returns (err: Option<string>)
      modifies this`zeroCalls
      ensures srcZ == "" ==> err == Some("no source tree root specified") && zeroCalls == old(zeroCalls)
      ensures srcZ != "" ==> err == None && zeroCalls == old(zeroCalls) + [ZeroCall(srcZ, !DryRun)]
    {
      if srcZ == "" {
        return Some("no source tree root specified");
      }
      zeroCalls := zeroCalls + [ZeroCall(srcZ, !DryRun)];
      err := None;
    }

    /** `toFile`: writes the list as JSON into the list file. */
    method ToFile(lu: TriceIDLookUp)
      modifies this`listFile, this`listWrites
      ensures listFile == Some(marshal(lu.entries)) && listWrites == old(listWrites) + 1
    {
      listFile := Some(marshal(lu.entries));
      listWrites := listWrites + 1;
    }

    /** One round of `walkSrcs`: scans the root `src` when its converted path
        exists, and reports it otherwise. */
    method VisitRoot(f: ScanFn, src: string, lu: TriceIDLookUp, tflu: TriceFmtLookUp, listModified: bool)
      returns (tflu': TriceFmtLookUp, listModified': bool)
      modifies this`calls, this`reports, lu`entries
      ensures calls == old(calls) + ExistingRoots(condPath, stat, [src])
      ensures reports == old(reports) + Reports(condPath, stat, [src])
      ensures Walk(f, ExistingRoots(condPath, stat, [src]), ScanState(old(lu.entries), tflu, listModified))
              == ScanState(lu.entries, tflu', listModified')
    {
      var srcU := condPath(src);
      assert [src][1..] == [];
      tflu', listModified' := tflu, listModified;
      match stat(srcU) {
        case Exists =>
          var st := f(srcU, ScanState(lu.entries, tflu, listModified));
          lu.entries, tflu', listModified' := st.lu, st.tflu, st.listModified;
          calls := calls + [srcU];
          assert [srcU][1..] == [];
        case NotExist =>
          reports := reports + [DoesNotExist(src, srcU)];
        case StatFailed =>
          reports := reports + [MayOrMayNotExist(src)];
      }
    }

    /** `walkSrcs`: calls the scan once per existing root, in order, and reports
        and skips every other root. */
    method WalkSrcs(f: ScanFn, lu: TriceIDLookUp, tflu: TriceFmtLookUp, listModified: bool)
      returns (tflu': TriceFmtLookUp, listModified': bool)
      modifies this`Srcs, this`calls, this`reports, lu`entries
      ensures Srcs == DefaultSrcs(old(Srcs))
      ensures calls == old(calls) + ExistingRoots(condPath, stat, Srcs)
      ensures reports == old(reports) + Reports(condPath, stat, Srcs)
      ensures Walk(f, ExistingRoots(condPath, stat, Srcs), ScanState(old(lu.entries), tflu, listModified))
              == ScanState(lu.entries, tflu', listModified')
    {
      if |Srcs| == 0 {
        Srcs := Srcs + ["./"];
      }
      tflu', listModified' := WalkRoots(f, Srcs, lu, tflu, listModified);
    }

    /** The loop of `walkSrcs` over the given roots. */
    method WalkRoots(f: ScanFn, srcs: seq<string>, lu: TriceIDLookUp, tflu: TriceFmtLookUp, listModified: bool)
      returns (tflu': TriceFmtLookUp, listModified': bool)
      modifies this`calls, this`reports, lu`entries
      ensures calls == old(calls) + ExistingRoots(condPath, stat, srcs)
      ensures reports == old(reports) + Reports(condPath, stat, srcs)
      ensures Walk(f, ExistingRoots(condPath, stat, srcs), ScanState(old(lu.entries), tflu, listModified))
              == ScanState(lu.entries, tflu', listModified')
    {
      ghost var calls0, reports0 := calls, reports;
      ghost var final := Walk(f, ExistingRoots(condPath, stat, srcs), ScanState(lu.entries, tflu, listModified));
      tflu', listModified' := tflu, listModified;
      var i := 0;
      assert srcs[..0] == [] && srcs[0..] == srcs;
      while i < |srcs|
        invariant 0 <= i <= |srcs|
        invariant calls == calls0 + ExistingRoots(condPath, stat, srcs[..i])
        invariant reports == reports0 + Reports(condPath, stat, srcs[..i])
        invariant Walk(f, ExistingRoots(condPath, stat, srcs[i..]), ScanState(lu.entries, tflu', listModified')) == final
        decreases |srcs| - i
      {
        ghost var here := ScanState(lu.entries, tflu', listModified');
        RootStep(condPath, stat, srcs, i);
        WalkAppend(f, ExistingRoots(condPath, stat, [srcs[i]]), ExistingRoots(condPath, stat, srcs[i + 1..]), here);
        tflu', listModified' := VisitRoot(f, srcs[i], lu, tflu', listModified');
        i := i + 1;
      }
      assert srcs[..i] == srcs;
      assert srcs[i..] == [];
    }

    /** `updateList`: builds the reverse index, keeps a copy of the list, walks the
        sources with the read-only scan and writes the list when it differs from
        the copy and this is not a dry run. */
    method UpdateList(lu: TriceIDLookUp, refresh: RefreshFn) returns (err: Option<string>)
      modifies this`Srcs, this`calls, this`reports, this`listFile, this`listWrites, lu`entries
      ensures err == None
      ensures Srcs == DefaultSrcs(old(Srcs))
      ensures calls == old(calls) + ExistingRoots(condPath, stat, Srcs)
      ensures reports == old(reports) + Reports(condPath, stat, Srcs)
      ensures exists t :: IsReverseIndex(old(lu.entries), t) &&
                lu.entries == Walk(RefreshListAdapter(refresh), ExistingRoots(condPath, stat, Srcs),
                                   ScanState(old(lu.entries), t, false)).lu
      ensures var write := lu.entries != old(lu.entries) && !DryRun;
              && listWrites == old(listWrites) + (if write then 1 else 0)
              && listFile == (if write then Some(marshal(lu.entries)) else old(listFile))
    {
      var tflu := lu.Reverse();
      var lu0 := CopyLookUp(lu);
      var listModified := false;
      var tflu', listModified' := WalkSrcs(RefreshListAdapter(refresh), lu, tflu, listModified);
      var eq := lu0 == lu.entries;
      if !eq && !DryRun {
        ToFile(lu);
      }
      err := None;
    }

    /** `SubCmdReNewList`: reconciles an empty list with the source tree. */
    method SubCmdReNewList(refresh: RefreshFn) returns (r: CmdResult)
      modifies this`Srcs, this`calls, this`reports, this`listFile, this`listWrites
      ensures r == Returned(None)
      ensures Srcs == DefaultSrcs(old(Srcs))
      ensures calls == old(calls) + ExistingRoots(condPath, stat, Srcs)
      ensures reports == old(reports) + Reports(condPath, stat, Srcs)
      ensures var final := Walk(RefreshListAdapter(refresh), ExistingRoots(condPath, stat, Srcs),
                                ScanState(map[], map[], false)).lu;
              var write := final != map[] && !DryRun;
              && listWrites == old(listWrites) + (if write then 1 else 0)
              && listFile == (if write then Some(marshal(final)) else old(listFile))
    {
      var lu := new TriceIDLookUp();
      var err := UpdateList(lu, refresh);
      ghost var t :| IsReverseIndex(map[], t) &&
        lu.entries == Walk(RefreshListAdapter(refresh), ExistingRoots(condPath, stat, Srcs), ScanState(map[], t, false)).lu;
      ReverseOfEmpty(t);
      r := Returned(err);
    }

    /** `SubCmdRefreshList`: reconciles the loaded list with the source tree; an
        unreadable or malformed list file is fatal. */
    method SubCmdRefreshList(refresh: RefreshFn) returns (r: CmdResult)
      modifies this`Srcs, this`calls, this`reports, this`listFile, this`listWrites
      ensures LoadedList(old(listFile), unmarshal).None? ==>
                && r.FatalExit?
                && Srcs == old(Srcs) && calls == old(calls) && reports == old(reports)
                && listFile == old(listFile) && listWrites == old(listWrites)
      ensures LoadedList(old(listFile), unmarshal).Some? ==>
                && r == Returned(None)
                && Srcs == DefaultSrcs(old(Srcs))
                && calls == old(calls) + ExistingRoots(condPath, stat, Srcs)
                && reports == old(reports) + Reports(condPath, stat, Srcs)
                && var start := LoadedList(old(listFile), unmarshal).value;
                   exists t :: IsReverseIndex(start, t) &&
                     var final := Walk(RefreshListAdapter(refresh), ExistingRoots(condPath, stat, Srcs),
                                       ScanState(start, t, false)).lu;
                     var write := final != start && !DryRun;
                     && listWrites == old(listWrites) + (if write then 1 else 0)
                     && listFile == (if write then Some(marshal(final)) else old(listFile))
    {
      var loaded := NewLut(listFile, unmarshal);
      if loaded.LoadFailed? {
        return FatalExit(loaded.msg);
      }
      var lu := loaded.lu;
      ghost var start := lu.entries;
      var err := UpdateList(lu, refresh);
      ghost var t :| IsReverseIndex(start, t) &&
        lu.entries == Walk(RefreshListAdapter(refresh), ExistingRoots(condPath, stat, Srcs), ScanState(start, t, false)).lu;
      r := Returned(err);
    }

    /** `SubCmdUpdate`: walks the sources with the read-write scan and writes the
        list when the scan flagged a change and this is not a dry run. */
    method SubCmdUpdate(idsUpdate: ScanFn) returns (r: CmdResult)
      modifies this`Srcs, this`calls, this`reports, this`listFile, this`listWrites
      ensures LoadedList(old(listFile), unmarshal).None? ==>
                && r.FatalExit?
                && Srcs == old(Srcs) && calls == old(calls) && reports == old(reports)
                && listFile == old(listFile) && listWrites == old(listWrites)
      ensures LoadedList(old(listFile), unmarshal).Some? ==>
                && r == Returned(None)
                && Srcs == DefaultSrcs(old(Srcs))
                && calls == old(calls) + ExistingRoots(condPath, stat, Srcs)
                && reports == old(reports) + Reports(condPath, stat, Srcs)
                && var start := LoadedList(old(listFile), unmarshal).value;
                   exists t :: IsReverseIndex(start, t) &&
                     var final := Walk(idsUpdate, ExistingRoots(condPath, stat, Srcs), ScanState(start, t, false));
                     var write := final.listModified && !DryRun;
                     && listWrites == old(listWrites) + (if write then 1 else 0)
                     && listFile == (if write then Some(marshal(final.lu)) else old(listFile))
    {
      var loaded := NewLut(listFile, unmarshal);
      if loaded.LoadFailed? {
        return FatalExit(loaded.msg);
      }
      var lu := loaded.lu;
      ghost var start := lu.entries;
      var tflu := lu.Reverse();
      var listModified := false;
      var tflu', listModified' := WalkSrcs(idsUpdate, lu, tflu, listModified);
      if listModified' && !DryRun {
        ToFile(lu);
      }
      assert IsReverseIndex(start, tflu);
      r := Returned(None);
    }
  }

  /** The copy `lu0` that `updateList` keeps: a new map, filled key by key. */
  method CopyLookUp(lu: TriceIDLookUp) returns (lu0: map<TriceID, TriceFmt>)
    ensures lu0 == lu.entries
  {
    lu0 := map[];
    var rest := lu.entries.Keys;
    while rest != {}
      invariant rest <= lu.entries.Keys
      invariant lu0.Keys == lu.entries.Keys - rest
      invariant forall k :: k in lu0 ==> lu0[k] == lu.entries[k]
      decreases rest
    {
      NonEmptyHasID(rest);
      var k :| k in rest;
      lu0 := lu0[k := lu.entries[k]];
      rest := rest - {k};
    }
    assert lu0.Keys == lu.entries.Keys;
    assert forall k :: k in lu0 ==> lu0[k] == lu.entries[k];
  }

  // ---------------------------------------------------------------------------
  // Lemmas

  /** The empty list has only the empty reverse index. */
  lemma ReverseOfEmpty(t: TriceFmtLookUp)
    requires IsReverseIndex(map[], t)
    ensures t == map[]
  {
  }

  lemma {:induction false} ExistingRootsAppend(condPath: string -> string, stat: string -> StatResult,
                                               a: seq<string>, b: seq<string>)
    ensures ExistingRoots(condPath, stat, a + b) == ExistingRoots(condPath, stat, a) + ExistingRoots(condPath, stat, b)
    decreases |a|
  {
    if |a| > 0 {
      assert (a + b)[1..] == a[1..] + b;
      ExistingRootsAppend(condPath, stat, a[1..], b);
    } else {
      assert a + b == b;
    }
  }

  lemma {:induction false} ReportsAppend(condPath: string -> string, stat: string -> StatResult,
                                         a: seq<string>, b: seq<string>)
    ensures Reports(condPath, stat, a + b) == Reports(condPath, stat, a) + Reports(condPath, stat, b)
    decreases |a|
  {
    if |a| > 0 {
      assert (a + b)[1..] == a[1..] + b;
      ReportsAppend(condPath, stat, a[1..], b);
    } else {
      assert a + b == b;
    }
  }

  /** Root `i` of `srcs` splits the walk into the roots before it, itself and
      the roots after it. */
  lemma RootStep(condPath: string -> string, stat: string -> StatResult, srcs: seq<string>, i: nat)
    requires i < |srcs|
    ensures ExistingRoots(condPath, stat, srcs[i..])
            == ExistingRoots(condPath, stat, [srcs[i]]) + ExistingRoots(condPath, stat, srcs[i + 1..])
    ensures ExistingRoots(condPath, stat, srcs[..i + 1])
            == ExistingRoots(condPath, stat, srcs[..i]) + ExistingRoots(condPath, stat, [srcs[i]])
    ensures Reports(condPath, stat, srcs[..i + 1])
            == Reports(condPath, stat, srcs[..i]) + Reports(condPath, stat, [srcs[i]])
  {
    assert srcs[i..] == [srcs[i]] + srcs[i + 1..];
    assert srcs[..i + 1] == srcs[..i] + [srcs[i]];
    ExistingRootsAppend(condPath, stat, [srcs[i]], srcs[i + 1..]);
    ExistingRootsAppend(condPath, stat, srcs[..i], [srcs[i]]);
    ReportsAppend(condPath, stat, srcs[..i], [srcs[i]]);
  }

  /** Every root is either scanned or reported, never both and never neither. */
  lemma {:induction false} EveryRootScannedOrReported(condPath: string -> string, stat: string -> StatResult,
                                                      srcs: seq<string>)
    ensures |ExistingRoots(condPath, stat, srcs)| + |Reports(condPath, stat, srcs)| == |srcs|
    decreases |srcs|
  {
    if |srcs| > 0 {
      EveryRootScannedOrReported(condPath, stat, srcs[1..]);
    }
  }

  /** A missing root is reported and skipped; the walk goes on with the roots after it. */
  lemma MissingRootSkipped(condPath: string -> string, stat: string -> StatResult,
                           a: seq<string>, x: string, b: seq<string>)
    requires stat(condPath(x)) != Exists
    ensures ExistingRoots(condPath, stat, a + [x] + b) == ExistingRoots(condPath, stat, a) + ExistingRoots(condPath, stat, b)
    ensures |Reports(condPath, stat, a + [x] + b)| == |Reports(condPath, stat, a)| + 1 + |Reports(condPath, stat, b)|
  {
    ExistingRootsAppend(condPath, stat, a + [x], b);
    ExistingRootsAppend(condPath, stat, a, [x]);
    ReportsAppend(condPath, stat, a + [x], b);
    ReportsAppend(condPath, stat, a, [x]);
  }

  /** When every root exists the scan sees every root, in the given order, and
      nothing is reported. */
  lemma {:induction false} AllRootsScanned(condPath: string -> string, stat: string -> StatResult, srcs: seq<string>)
    requires forall s :: s in srcs ==> stat(condPath(s)) == Exists
    ensures ExistingRoots(condPath, stat, srcs) == seq(|srcs|, i requires 0 <= i < |srcs| => condPath(srcs[i]))
    ensures Reports(condPath, stat, srcs) == []
    decreases |srcs|
  {
    if |srcs| > 0 {
      assert srcs[0] in srcs;
      forall s | s in srcs[1..] ensures stat(condPath(s)) == Exists {
        assert s in srcs;
      }
      AllRootsScanned(condPath, stat, srcs[1..]);
    }
  }

  /** Walking two runs of roots is walking the first, then the second. */
  lemma {:induction false} WalkAppend(f: ScanFn, a: seq<string>, b: seq<string>, s: ScanState)
    ensures Walk(f, a + b, s) == Walk(f, b, Walk(f, a, s))
    decreases |a|
  {
    if |a| > 0 {
      assert (a + b)[1..] == a[1..] + b;
      WalkAppend(f, a[1..], b, f(a[0], s));
    } else {
      assert a + b == b;
    }
  }

  /** Every report is about a given root whose path does not exist or whose
      existence is unknown. */
  lemma {:induction false} ReportsAreSkippedRoots(condPath: string -> string, stat: string -> StatResult,
                                                  srcs: seq<string>)
    ensures forall k :: 0 <= k < |Reports(condPath, stat, srcs)| ==>
              Reports(condPath, stat, srcs)[k].src in srcs &&
              stat(condPath(Reports(condPath, stat, srcs)[k].src)) != Exists
    decreases |srcs|
  {
    if |srcs| > 0 {
      ReportsAreSkippedRoots(condPath, stat, srcs[1..]);
      assert forall x :: x in srcs[1..] ==> x in srcs;
    }
  }

  /** A scan that never changes the list leaves it as it was after any walk, so
      `updateList` then writes nothing. */
  lemma {:induction false} WalkKeepsList(f: ScanFn, roots: seq<string>, s: ScanState)
    requires forall root, st :: f(root, st).lu == st.lu
    ensures Walk(f, roots, s).lu == s.lu
    decreases |roots|
  {
    if |roots| > 0 {
      WalkKeepsList(f, roots[1..], f(roots[0], s));
    }
  }

  /** The read-only walk of `updateList` never sets the list-modified flag. */
  lemma {:induction false} RefreshWalkKeepsFlag(refresh: RefreshFn, roots: seq<string>, s: ScanState)
    ensures Walk(RefreshListAdapter(refresh), roots, s).listModified == s.listModified
    decreases |roots|
  {
    if |roots| > 0 {
      RefreshWalkKeepsFlag(refresh, roots[1..], RefreshListAdapter(refresh)(roots[0], s));
    }
  }

  /** An empty source list is walked as the single root "./". */
  lemma DefaultRoot(condPath: string -> string, stat: string -> StatResult)
    ensures ExistingRoots(condPath, stat, DefaultSrcs([])) ==
            (if stat(condPath("./")) == Exists then [condPath("./")] else [])
  {
  }
}
