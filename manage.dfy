/** The ID list of package `id` (internal/id/manage.go): the map from trice ID to
    trice format, the three ID search methods over it, the reverse index, the
    parameter-count extension of type names and loading from JSON bytes. */
module Manage {
  import opened IdTypes

  /** What an ID search delivers: an ID, or the fatal "no new ID possible". */
  datatype NewIDResult = ID(id: TriceID) | NoNewIDPossible

  /** The outcome of JSON decoding, which is not part of this model. A decoding
      error comes with the entries the decoder stored anyway: every entry that
      decodes, before or after the error; none after a syntax error. */
  datatype Decoded = Decoded(m: map<TriceID, TriceFmt>) | Malformed(partial: map<TriceID, TriceFmt>, msg: string)

  /** The outcome of loading the ID list file. */
  datatype LoadResult = Loaded(lu: TriceIDLookUp) | LoadFailed(msg: string)

  // ---------------------------------------------------------------------------
  // What the ID searches promise

  /** The search gives up when the interval has no more IDs than the whole list
      has entries. Every entry counts, also those outside [min, max]. */
  ghost function Exhausted(lu: map<TriceID, TriceFmt>, min: TriceID, max: TriceID): (r: bool)
    ensures (forall k :: min <= k <= max ==> k in lu) ==> r
    ensures !r ==> exists k :: IsFree(lu, min, max, k)
  {
    FullIntervalSize(lu, min, max);
    GapIsFree(lu, min, max);
    (max - min + 1) - |lu| <= 0
  }

  /** `id` lies in [min, max] and is not used by the list. */
  predicate IsFree(lu: map<TriceID, TriceFmt>, min: TriceID, max: TriceID, id: TriceID)
  {
    min <= id <= max && id !in lu
  }

  /** `id` is the smallest free ID of [min, max]. */
  predicate IsLowestFree(lu: map<TriceID, TriceFmt>, min: TriceID, max: TriceID, id: TriceID)
  {
    IsFree(lu, min, max, id) && forall k :: min <= k < id ==> k in lu
  }

  /** `id` is the biggest free ID of [min, max]. */
  predicate IsHighestFree(lu: map<TriceID, TriceFmt>, min: TriceID, max: TriceID, id: TriceID)
  {
    IsFree(lu, min, max, id) && forall k :: id < k <= max ==> k in lu
  }

  /** `tflu` is a reverse index of `lu`: its keys are exactly the normalised
      formats of the list, and each key leads back to an ID whose normalised
      format is that key. Which of several colliding IDs is kept is left open. */
  predicate IsReverseIndex(lu: map<TriceID, TriceFmt>, tflu: TriceFmtLookUp)
  {
    && tflu.Keys == (set id | id in lu :: Normalize(lu[id]))
    && forall tf :: tf in tflu ==> tflu[tf] in lu && Normalize(lu[tflu[tf]]) == tf
  }

  /** The list after adding the parameter count to every type name that has none:
      a type containing '0' or '_' is kept, every other type becomes
      `addCount(Type, count(Strg))`. */
  function WithFmtCount(lu: map<TriceID, TriceFmt>, count: string -> nat,
                        addCount: (string, nat) -> string): (r: map<TriceID, TriceFmt>)
    ensures r.Keys == lu.Keys
    ensures forall i :: i in r ==> r[i].Strg == lu[i].Strg
    ensures forall i :: i in r && ContainsAny(lu[i].Type, "0_") ==> r[i] == lu[i]
  {
    map i | i in lu :: FmtCounted(lu[i], count, addCount)
  }

  /** One entry after adding its parameter count. */
  function FmtCounted(tf: TriceFmt, count: string -> nat, addCount: (string, nat) -> string): (r: TriceFmt)
    ensures r.Strg == tf.Strg
    ensures ContainsAny(tf.Type, "0_") ==> r == tf
    ensures (forall t, n :: ContainsAny(addCount(t, n), "_")) ==> ContainsAny(r.Type, "0_")
  {
    UnderscoreMarksCount(addCount(tf.Type, count(tf.Strg)));

    if ContainsAny(tf.Type, "0_") then tf else TriceFmt(addCount(tf.Type, count(tf.Strg)), tf.Strg)
  }

  /** The list `NewLut` delivers for the file contents `file` (None when the file
      cannot be read): None for the fatal cases, the empty list for an empty file. */
  function LoadedList(file: Option<seq<byte>>, unmarshal: seq<byte> -> Decoded): (r: Option<map<TriceID, TriceFmt>>)
    ensures file.None? ==> r.None?
    ensures file == Some([]) ==> r == Some(map[])
    ensures file.Some? && file.value != [] ==>
              (r.Some? <==> unmarshal(file.value).Decoded?) &&
              (r.Some? ==> r.value == unmarshal(file.value).m)
  {
    match file
    case None => None
    case Some(b) =>
      if |b| == 0 then Some(map[])
      else match unmarshal(b)
        case Decoded(m) => Some(m)
        case Malformed(_, _) => None
  }

  // ---------------------------------------------------------------------------
  // The list

  class TriceIDLookUp {
    var entries: map<TriceID, TriceFmt>

    /** `make(TriceIDLookUp)`: an empty list. */
    constructor ()
      ensures entries == map[]
    {
      entries := map[];
    }

    /** The inner scan of the searches: walks the keys in some order and stops at
        the first one equal to `id`. */
    method Used(id: TriceID) returns (used: bool)
      ensures used <==> id in entries
    {
      used := false;
      var rest := entries.Keys;
      while rest != {} && !used
        invariant rest <= entries.Keys
        invariant used ==> id in entries
        invariant !used ==> id !in entries.Keys - rest
        decreases rest
      {
        NonEmptyHasID(rest);
        var k :| k in rest;
        if id == k {
          used := true;
        }
        rest := rest - {k};
      }
    }

    /** Dispatches on the search method; an unknown method is reported and gives
        the sentinel 0. */
    method NewID(searchMethod: string, min: TriceID, max: TriceID) returns (r: NewIDResult)
      ensures searchMethod in {"random", "upward", "downward"} ==>
                (r == NoNewIDPossible <==> Exhausted(entries, min, max))
      ensures searchMethod == "random" && r.ID? ==> IsFree(entries, min, max, r.id)
      ensures searchMethod == "upward" && r.ID? ==> IsLowestFree(entries, min, max, r.id)
      ensures searchMethod == "downward" && r.ID? ==> IsHighestFree(entries, min, max, r.id)
      ensures searchMethod !in {"random", "upward", "downward"} ==> r == ID(0)
      ensures 0 < min && r == ID(0) ==> searchMethod !in {"random", "upward", "downward"}
    {
      if searchMethod == "random" {
        var warn;
        r, warn := NewRandomID(min, max);
      } else if searchMethod == "upward" {
        r := NewUpwardID(min, max);
      } else if searchMethod == "downward" {
        r := NewDownwardID(min, max);
      } else {
        r := ID(0);
      }
    }

    /** A random free ID of [min, max]; `lowHeadroom` is the "less than 25% IDs
        free" warning. */
    method NewRandomID(min: TriceID, max: TriceID) returns (r: NewIDResult, lowHeadroom: bool)
      ensures r == NoNewIDPossible <==> Exhausted(entries, min, max)
      ensures r.ID? ==> IsFree(entries, min, max, r.id)
      ensures lowHeadroom <==>
                !Exhausted(entries, min, max) && (max - min + 1) - |entries| < (max - min + 1) / 4
    {
      var interval := max - min + 1;
      var freeIDs := interval - |entries|;
      if !(freeIDs > 0) {
        return NoNewIDPossible, false;
      }
      var wrnLimit := interval / 4;
      lowHeadroom := freeIDs < wrnLimit;
      ghost var w := FreeIDExists(entries, min, max);
      var id :| min <= id <= max && id !in entries;
      r := ID(id);
    }

    /** The smallest free ID of [min, max]. */
    method NewUpwardID(min: TriceID, max: TriceID) returns (r: NewIDResult)
      ensures r == NoNewIDPossible <==> Exhausted(entries, min, max)
      ensures r.ID? ==> IsLowestFree(entries, min, max, r.id)
    {
      var interval := max - min + 1;
      var freeIDs := interval - |entries|;
      if !(freeIDs > 0) {
        return NoNewIDPossible;
      }
      var id := min;
      if |entries| == 0 {
        return ID(id);
      }
      ghost var w := FreeIDExists(entries, min, max);
      var used := Used(id);
      while used
        invariant min <= id <= w
        invariant forall k :: min <= k < id ==> k in entries
        invariant used <==> id in entries
        decreases w - id
      {
        id := id + 1;
        used := Used(id);
      }
      r := ID(id);
    }

    /** The biggest free ID of [min, max]. */
    method NewDownwardID(min: TriceID, max: TriceID) returns (r: NewIDResult)
      ensures r == NoNewIDPossible <==> Exhausted(entries, min, max)
      ensures r.ID? ==> IsHighestFree(entries, min, max, r.id)
    {
      var interval := max - min + 1;
      var freeIDs := interval - |entries|;
      if !(freeIDs > 0) {
        return NoNewIDPossible;
      }
      var id := max;
      if |entries| == 0 {
        return ID(id);
      }
      ghost var w := FreeIDExists(entries, min, max);
      var used := Used(id);
      while used
        invariant w <= id <= max
        invariant forall k :: id < k <= max ==> k in entries
        invariant used <==> id in entries
        decreases id - w
      {
        id := id - 1;
        used := Used(id);
      }
      r := ID(id);
    }

    /** Merges decoded JSON into the list; empty input is no error and changes nothing. */
    method FromJSON(b: seq<byte>, unmarshal: seq<byte> -> Decoded) returns (err: Option<string>)
      modifies this
      ensures |b| == 0 ==> err == None && entries == old(entries)
      ensures |b| > 0 && unmarshal(b).Decoded? ==>
                err == None && entries == old(entries) + unmarshal(b).m
      ensures |b| > 0 && unmarshal(b).Malformed? ==>
                err == Some(unmarshal(b).msg) && entries == old(entries) + unmarshal(b).partial
    {
      err := None;
      if 0 < |b| {
        match unmarshal(b)
        case Decoded(m) =>
          entries := entries + m;
        case Malformed(partial, msg) =>
          entries := entries + partial;
          err := Some(msg);
      }
    }

    /** Adds the parameter count to every type name without one, in place. */
    method AddFmtCount(count: string -> nat, addCount: (string, nat) -> string)
      modifies this
      ensures entries == WithFmtCount(old(entries), count, addCount)
    {
      ghost var lu := entries;
      ghost var target := WithFmtCount(lu, count, addCount);
      var rest := entries.Keys;
      while rest != {}
        invariant rest <= lu.Keys
        invariant entries.Keys == lu.Keys
        invariant forall i :: i in rest ==> entries[i] == lu[i]
        invariant forall i :: i in entries && i !in rest ==> entries[i] == target[i]
        decreases rest
      {
        NonEmptyHasID(rest);
        var i :| i in rest;
        var x := entries[i];
        if !ContainsAny(x.Type, "0_") {
          var n := count(x.Strg);
          x := TriceFmt(addCount(x.Type, n), x.Strg);
          entries := entries[i := x];
        }
        assert entries[i] == target[i];
        rest := rest - {i};
      }
      assert forall i :: i in entries ==> entries[i] == target[i];
    }

    /** The reverse index of the list: inserts every upper-cased format, in the
        order the keys are met. */
    method Reverse() returns (tflu: TriceFmtLookUp)
      ensures IsReverseIndex(entries, tflu)
    {
      tflu := map[];
      var rest := entries.Keys;
      while rest != {}
        invariant rest <= entries.Keys
        invariant tflu.Keys == (set id | id in entries.Keys - rest :: Normalize(entries[id]))
        invariant forall tf :: tf in tflu ==> tflu[tf] in entries && Normalize(entries[tflu[tf]]) == tf
        decreases rest
      {
        NonEmptyHasID(rest);
        var id :| id in rest;
        var tF := entries[id];
        tF := TriceFmt(ToUpper(tF.Type), tF.Strg);
        ghost var done := entries.Keys - rest;
        tflu := tflu[tF := id];
        rest := rest - {id};
        assert entries.Keys - rest == done + {id};
      }
      assert entries.Keys - rest == entries.Keys;
    }
  }

  /** `NewLut`: a new list read from the file contents `file`; an unreadable
      file or malformed contents are fatal. */
  method NewLut(file: Option<seq<byte>>, unmarshal: seq<byte> -> Decoded) returns (r: LoadResult)
    ensures r.Loaded? <==> LoadedList(file, unmarshal).Some?
    ensures r.Loaded? ==> fresh(r.lu) && r.lu.entries == LoadedList(file, unmarshal).value
  {
    var lu := new TriceIDLookUp();
    if file.None? {
      return LoadFailed("May be need to create an empty file first? (Safety feature)");
    }
    var err := lu.FromJSON(file.value, unmarshal);
    if err.Some? {
      return LoadFailed(err.value);
    }
    r := Loaded(lu);
  }

  // ---------------------------------------------------------------------------
  // Lemmas

  /** If every ID of [min, max] is used, the list has at least max - min + 1 entries. */
  lemma FullIntervalSize(lu: map<TriceID, TriceFmt>, min: TriceID, max: TriceID)
    ensures min <= max + 1 && (forall k :: min <= k <= max ==> k in lu) ==> |lu| >= max - min + 1
  {
    var s := Interval(min, max);
    if min <= max + 1 && s <= lu.Keys {
      assert lu.Keys == s + (lu.Keys - s);
      assert s * (lu.Keys - s) == {};
    }
  }

  /** An interval the list does not fully use has a free ID. */
  lemma GapIsFree(lu: map<TriceID, TriceFmt>, min: TriceID, max: TriceID)
    ensures !(forall k :: min <= k <= max ==> k in lu) ==> exists k :: IsFree(lu, min, max, k)
  {
    if !(forall k :: min <= k <= max ==> k in lu) {
      var k :| min <= k <= max && k !in lu;
      assert IsFree(lu, min, max, k);
    }
  }

  /** Whenever the searches do not give up, [min, max] has a free ID. */
  lemma FreeIDExists(lu: map<TriceID, TriceFmt>, min: TriceID, max: TriceID) returns (w: TriceID)
    requires !Exhausted(lu, min, max)
    ensures IsFree(lu, min, max, w)
  {
    w :| IsFree(lu, min, max, w);
  }

  /** The give-up test is conservative: entries outside [min, max] also count, so
      it gives up although every ID of the interval is free. */
  lemma ExhaustionIsConservative()
    ensures var lu := map[32767 := TriceFmt("Trice0", "hi")];
            Exhausted(lu, 99, 99) && IsFree(lu, 99, 99, 99)
  {
  }

  /** The upward search is deterministic: two calls on the same list agree. */
  lemma LowestFreeIsUnique(lu: map<TriceID, TriceFmt>, min: TriceID, max: TriceID, a: TriceID, b: TriceID)
    requires IsLowestFree(lu, min, max, a) && IsLowestFree(lu, min, max, b)
    ensures a == b
  {
  }

  /** The downward search is deterministic: two calls on the same list agree. */
  lemma HighestFreeIsUnique(lu: map<TriceID, TriceFmt>, min: TriceID, max: TriceID, a: TriceID, b: TriceID)
    requires IsHighestFree(lu, min, max, a) && IsHighestFree(lu, min, max, b)
    ensures a == b
  {
  }

  /** Inserting the ID an upward search delivered makes the next search deliver a
      bigger one. */
  lemma UpwardAfterInsert(lu: map<TriceID, TriceFmt>, min: TriceID, max: TriceID, a: TriceID, tf: TriceFmt, b: TriceID)
    requires IsLowestFree(lu, min, max, a) && IsLowestFree(lu[a := tf], min, max, b)
    ensures a < b
    ensures forall k :: a < k < b ==> k in lu
  {
    assert b != a && b !in lu;
    forall k | a < k < b
      ensures k in lu
    {
      assert k in lu[a := tf];
    }
  }

  /** Inserting the ID a downward search delivered makes the next search deliver a
      smaller one. */
  lemma DownwardAfterInsert(lu: map<TriceID, TriceFmt>, min: TriceID, max: TriceID, a: TriceID, tf: TriceFmt, b: TriceID)
    requires IsHighestFree(lu, min, max, a) && IsHighestFree(lu[a := tf], min, max, b)
    ensures b < a
    ensures forall k :: b < k < a ==> k in lu
  {
    assert b != a && b !in lu;
    forall k | b < k < a
      ensures k in lu
    {
      assert k in lu[a := tf];
    }
  }

  /** Downward search in the normal range [10, 99] of a list that holds only the
      short-range ID 32767 does not give up and gives 99; after inserting 99 and
      the short-range ID 32766 it gives 98. */
  lemma DownwardNormalRangeFixture(a: TriceID, b: TriceID)
    requires IsHighestFree(map[32767 := TriceFmt("Trice0", "hi")], 10, 99, a)
    requires IsHighestFree(map[32767 := TriceFmt("Trice0", "hi"), 99 := TriceFmt("TRICE0", "hi"),
                               32766 := TriceFmt("Trice0i", "hi")], 10, 99, b)
    ensures !Exhausted(map[32767 := TriceFmt("Trice0", "hi")], 10, 99)
    ensures !Exhausted(map[32767 := TriceFmt("Trice0", "hi"), 99 := TriceFmt("TRICE0", "hi"),
                           32766 := TriceFmt("Trice0i", "hi")], 10, 99)
    ensures a == 99 && b == 98
  {
    var lu0 := map[32767 := TriceFmt("Trice0", "hi")];
    var lu1 := map[32767 := TriceFmt("Trice0", "hi"), 99 := TriceFmt("TRICE0", "hi"),
                   32766 := TriceFmt("Trice0i", "hi")];
    assert 99 !in lu0;
    assert 99 in lu1 && 98 !in lu1;
  }

  /** Every list entry is found in its reverse index under its normalised format. */
  lemma ReverseIndexCoversList(lu: map<TriceID, TriceFmt>, tflu: TriceFmtLookUp, id: TriceID)
    requires IsReverseIndex(lu, tflu) && id in lu
    ensures Normalize(lu[id]) in tflu
    ensures Normalize(lu[tflu[Normalize(lu[id])]]) == Normalize(lu[id])
  {
  }

  /** Without collisions under normalisation the reverse index inverts the list. */
  lemma ReverseIndexInverts(lu: map<TriceID, TriceFmt>, tflu: TriceFmtLookUp, id: TriceID)
    requires IsReverseIndex(lu, tflu) && id in lu
    requires forall i, j :: i in lu && j in lu && Normalize(lu[i]) == Normalize(lu[j]) ==> i == j
    ensures tflu[Normalize(lu[id])] == id
  {
    ReverseIndexCoversList(lu, tflu, id);
  }

  /** Normalising the formats of some IDs of the list gives no more keys than IDs. */
  lemma {:induction false} ImageNoLarger(lu: map<TriceID, TriceFmt>, ids: set<TriceID>)
    requires ids <= lu.Keys
    ensures |set id | id in ids :: Normalize(lu[id])| <= |ids|
    decreases |ids|
  {
    if ids != {} {
      NonEmptyHasID(ids);
      var x :| x in ids;
      var rest := ids - {x};
      ImageNoLarger(lu, rest);
      assert (set id | id in ids :: Normalize(lu[id])) == (set id | id in rest :: Normalize(lu[id])) + {Normalize(lu[x])};
    }
  }

  /** The reverse index can lose entries but never has more than the list. */
  lemma ReverseIndexNoLarger(lu: map<TriceID, TriceFmt>, tflu: TriceFmtLookUp)
    requires IsReverseIndex(lu, tflu)
    ensures |tflu| <= |lu|
  {
    ImageNoLarger(lu, lu.Keys);
    assert |tflu| == |tflu.Keys|;
  }

  /** Adding parameter counts twice is adding them once, as long as every count
      added shows as '_' in the type name. */
  lemma FmtCountIdempotent(lu: map<TriceID, TriceFmt>, count: string -> nat, addCount: (string, nat) -> string)
    requires forall t, n :: ContainsAny(addCount(t, n), "_")
    ensures WithFmtCount(WithFmtCount(lu, count, addCount), count, addCount) == WithFmtCount(lu, count, addCount)
  {
    var once := WithFmtCount(lu, count, addCount);
    assert forall i :: i in once ==> once[i] == FmtCounted(lu[i], count, addCount);
    assert forall i :: i in once ==> ContainsAny(once[i].Type, "0_");
  }

  /** A list whose every type name already carries a count or a zero is left as
      it is. */
  lemma FmtCountKeepsMarked(lu: map<TriceID, TriceFmt>, count: string -> nat, addCount: (string, nat) -> string)
    requires forall i :: i in lu ==> ContainsAny(lu[i].Type, "0_")
    ensures WithFmtCount(lu, count, addCount) == lu
  {
    var r := WithFmtCount(lu, count, addCount);
    assert r.Keys == lu.Keys;
    assert forall i :: i in r ==> r[i] == lu[i];
  }

  /** The expected list of the shared-ID fixture with parameter counts is left as
      it is: every type name in it carries a count or a zero. */
  lemma FmtCountFixture(count: string -> nat, addCount: (string, nat) -> string)
    ensures var lu := map[98 := TriceFmt("TRICE8_1", "Hi %d"), 99 := TriceFmt("trice8_1", "hi %d"),
                          19996 := TriceFmt("Trice16_1i", "hi %d"), 19997 := TriceFmt("Trice16_1", "hi %d"),
                          19998 := TriceFmt("Trice8_2", "hi %d %u"), 19999 := TriceFmt("Trice8_1", "hi %d"),
                          20000 := TriceFmt("Trice0", "Trallala")];
            WithFmtCount(lu, count, addCount) == lu
  {
    var lu := map[98 := TriceFmt("TRICE8_1", "Hi %d"), 99 := TriceFmt("trice8_1", "hi %d"),
                  19996 := TriceFmt("Trice16_1i", "hi %d"), 19997 := TriceFmt("Trice16_1", "hi %d"),
                  19998 := TriceFmt("Trice8_2", "hi %d %u"), 19999 := TriceFmt("Trice8_1", "hi %d"),
                  20000 := TriceFmt("Trice0", "Trallala")];
    assert "TRICE8_1"[6] == '_';
    assert "trice8_1"[6] == '_';
    assert "Trice16_1i"[7] == '_';
    assert "Trice16_1"[7] == '_';
    assert "Trice8_2"[6] == '_';
    assert "Trice8_1"[6] == '_';
    assert "Trice0"[5] == '0';
    FmtCountKeepsMarked(lu, count, addCount);
  }

  /** A type name with a '_' carries a count or a zero. */
  lemma UnderscoreMarksCount(t: string)
    ensures ContainsAny(t, "_") ==> ContainsAny(t, "0_")
  {
  }

  /** An empty list file gives an empty list, not an error. */
  lemma EmptyFileGivesEmptyList(unmarshal: seq<byte> -> Decoded)
    ensures LoadedList(Some([]), unmarshal) == Some(map[])
  {
  }
}
