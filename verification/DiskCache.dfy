/** The write-back track cache. Whatever is cached, dirty or half written, the cache shows one
    flat byte image, `view`; the image file may lag behind it in dirty sectors only. */
module DiskCaches {
  import opened ImageFiles
  import opened DiskTracks
  import Lru

  const CACHE_MAX: nat := 16

  datatype CacheData = CacheData(disktrk: DiskTrack?, serial: nat)

  class DiskCache {
    const file: ImageFile
    const blocks: nat
    const shiftCount: nat
    var cache: seq<CacheData>
    var serial: nat

    ghost var tracks: set<DiskTrack>
    ghost var view: Bytes
    ghost var slots: seq<Lru.Slot>
    ghost var history: seq<nat>
    ghost var faultless: bool

    ghost function Size(): nat
      requires 8 <= shiftCount <= 12
    {
      SectorSize(shiftCount)
    }

    /** The number of sectors on a track: the last track may be shorter. */
    function SectorsOn(track: nat): (n: nat)
      requires track * SECTORS_PER_TRACK < blocks
      ensures 0 < n <= SECTORS_PER_TRACK && track * SECTORS_PER_TRACK + n <= blocks
    {
      if blocks - track * SECTORS_PER_TRACK > SECTORS_PER_TRACK then SECTORS_PER_TRACK
      else blocks - track * SECTORS_PER_TRACK
    }

    /** Track t agrees with the view. */
    ghost predicate Mirrors(t: DiskTrack)
      reads this`view, t
    {
      && 8 <= shiftCount <= 12
      && t.Loaded() && t.shiftCount == shiftCount
      && t.Base() < blocks && t.sectorCount == SectorsOn(t.trackNumber)
      && t.Start() + |t.buffer| <= |view|
      && t.buffer == view[t.Start()..t.Start() + |t.buffer|]
    }

    /** Byte p of the view has not reached the file yet. */
    ghost predicate Pending(p: nat)
      reads this`tracks, tracks
    {
      exists t :: t in tracks && t.Loaded() && t.Dirty(p)
    }

    /** The tracks hold distinct parts of the view. */
    ghost predicate Mirrored()
      reads this`view, this`tracks, tracks
    {
      && (forall t :: t in tracks ==> Mirrors(t))
      && (forall s, t :: s in tracks && t in tracks && s.trackNumber == t.trackNumber ==> s == t)
    }

    /** The file shows the view wherever no dirty sector is waiting. */
    ghost predicate Covered()
      reads this`view, this`tracks, file`bytes, tracks
    {
      |view| == |file.bytes| && forall p: nat :: p < |view| && view[p] != file.bytes[p] ==> Pending(p)
    }

    /** Slot i of the array against its ghost description. */
    ghost predicate SlotOk(i: nat)
      requires i < |cache| == |slots|
      reads this`cache, this`slots, this`tracks, tracks`trackNumber
    {
      var t := cache[i].disktrk;
      if t == null then slots[i] == Lru.Empty
      else t in tracks && slots[i] == Lru.Held(t.trackNumber, cache[i].serial)
    }

    ghost predicate Placed(t: DiskTrack)
      reads this`cache
    {
      exists i :: 0 <= i < |cache| && cache[i].disktrk == t
    }

    /** The slots hold the tracks, each once. */
    ghost predicate Slotted()
      reads this`cache, this`slots, this`tracks, tracks`trackNumber
    {
      && |cache| == |slots| == CACHE_MAX
      && (forall i :: 0 <= i < CACHE_MAX ==> SlotOk(i))
      && (forall t :: t in tracks ==> Placed(t))
      && (forall i, j :: 0 <= i < j < CACHE_MAX && cache[i].disktrk != null ==> cache[i].disktrk != cache[j].disktrk)
    }

    /** Everything but the serial numbers. */
    ghost predicate Coherent()
      reads this`view, this`cache, this`slots, this`tracks, file`bytes, tracks
    {
      && 8 <= shiftCount <= 12
      && Offset(blocks, Size()) <= |view|
      && Mirrored() && Covered() && Slotted()
    }

    /** Serial numbers follow the history until the 32-bit counter wraps or a transfer fails. */
    ghost predicate Counting(accesses: nat)
      reads this`faultless, this`serial, this`history, this`slots
    {
      faultless && accesses < 0x1_0000_0000 ==> serial == accesses && Lru.Tracks(history, slots)
    }

    ghost predicate Valid()
      reads this, file`bytes, tracks
    {
      Coherent() && Counting(|history|)
    }

    constructor (f: ImageFile, size: nat, sectors: nat)
      requires size in {256, 512, 1024, 2048, 4096} && sectors < 0x8000_0000
      requires Offset(sectors, size) <= |f.bytes|
      ensures Valid() && file == f && blocks == sectors && Size() == size
      ensures view == f.bytes && tracks == {} && history == [] && faultless
    {
      var shift := 8;
      while SectorSize(shift) != size
        invariant 8 <= shift <= 12
        invariant SectorSize(shift) <= size
        decreases 12 - shift
      {
        shift := shift + 1;
      }
      file, blocks, shiftCount := f, sectors, shift;
      cache, serial := seq(CACHE_MAX, _ => CacheData(null, 0)), 0;
      tracks, view, slots := {}, f.bytes, seq(CACHE_MAX, _ => Lru.Empty);
      history, faultless := [], true;
    }

    method SetSerial(i: nat, value: nat)
      requires i < CACHE_MAX && Coherent()
      modifies this`cache, this`slots
      ensures Coherent()
      ensures cache == old(cache)[i := old(cache)[i].(serial := value)]
      ensures slots == old(slots)[i := if old(slots)[i].Empty? then Lru.Empty else old(slots)[i].(serial := value)]
    {
      ghost var before := cache;
      assert SlotOk(i);
      cache := cache[i := cache[i].(serial := value)];
      slots := slots[i := if slots[i].Empty? then Lru.Empty else slots[i].(serial := value)];
      forall t | t in tracks
        ensures Placed(t)
      {
        assert old(Placed(t));
        var j :| 0 <= j < CACHE_MAX && before[j].disktrk == t;
        assert cache[j].disktrk == t;
      }
      forall j: nat | j < CACHE_MAX
        ensures SlotOk(j)
      {
        assert old(SlotOk(j));
      }
    }

    method UpdateSerial()
      requires Valid()
      modifies this`serial, this`cache, this`slots
      ensures Coherent() && Counting(|history| + 1)
      ensures serial == (old(serial) + 1) % 0x1_0000_0000
      ensures serial != 0 ==> cache == old(cache) && slots == old(slots)
      ensures serial == 0 ==>
                && |cache| == |old(cache)| == CACHE_MAX
                && forall j :: 0 <= j < CACHE_MAX ==> cache[j] == old(cache)[j].(serial := 0)
    {
      serial := (serial + 1) % 0x1_0000_0000;
      if serial != 0 {
        return;
      }
      for i := 0 to CACHE_MAX
        invariant Coherent() && |cache| == |old(cache)| == CACHE_MAX && serial == (old(serial) + 1) % 0x1_0000_0000 == 0
        invariant forall j :: 0 <= j < CACHE_MAX ==>
                    cache[j] == if j < i then old(cache)[j].(serial := 0) else old(cache)[j]
      {
        SetSerial(i, 0);
      }
    }

    /** No byte of a track that is not cached is waiting for a save. */
    lemma NotPending(track: nat, n: nat, p: nat)
      requires 8 <= shiftCount <= 12 && Mirrored()
      requires n <= SECTORS_PER_TRACK
      requires Offset(track * SECTORS_PER_TRACK, Size()) <= p < Offset(track * SECTORS_PER_TRACK + n, Size())
      requires Pending(p)
      ensures exists t :: t in tracks && t.trackNumber == track
    {
      var t :| t in tracks && t.Loaded() && t.Dirty(p);
      assert Mirrors(t);
      var k: nat :| k < t.sectorCount && t.modifiedFlags[k] && InSector(p, t.Base() + k, Size());
      TrackOfByte(p, track, n, t.Base() + k, Size());
    }

    twostate lemma FewerPending(t: DiskTrack)
      requires old(tracks) == tracks && t in tracks
      requires forall s :: s in tracks && s != t ==> unchanged(s)
      requires t.Loaded() ==> old(t.Loaded()) && forall p: nat :: t.Dirty(p) ==> old(t.Dirty(p))
      ensures forall p: nat :: Pending(p) ==> old(Pending(p))
    {
    }

    twostate lemma SaveKeepsTrack(t: DiskTrack)
      requires old(t.Loaded()) && t.Loaded() && t.shiftCount == old(t.shiftCount) && t.trackNumber == old(t.trackNumber)
      requires t.sectorCount == old(t.sectorCount)
      requires !t.isModified || t.modifiedFlags == old(t.modifiedFlags)
      ensures forall p: nat :: t.Dirty(p) ==> old(t.Dirty(p))
    {
    }

    /** Saves a cached track. The view does not change, whether the transfer succeeds or not. */
    method SaveTrack(t: DiskTrack) returns (ok: bool)
      requires Coherent() && t in tracks
      modifies file, t`isModified, t`modifiedFlags
      ensures Coherent()
      ensures old(file.failures) <= file.failures
      ensures !ok ==> old(file.failures) < file.failures
      ensures file.full ==> file.bytes == old(file.bytes)
      ensures ok ==> !t.isModified
      ensures forall p: nat :: Pending(p) ==> old(Pending(p))
    {
      hide Offset, SectorSize, WriteDirty, KeepsClean, SavedByte, InDirty, InSector;
      assert Mirrors(t);
      OffsetAscends(t.Base() + t.sectorCount, blocks, Size());
      ghost var before, flags := file.bytes, t.modifiedFlags;
      ok := t.Save(file);
      SaveKeepsTrack(t);
      FewerPending(t);
      assert forall s :: s in tracks && s != t ==> old(Mirrors(s)) && Mirrors(s);
      assert Mirrored() && Slotted();
      forall p: nat | p < |view|
        ensures view[p] == file.bytes[p] || Pending(p)
      {
        ByteAfterSave(view, before, file.bytes, t.Base(), t.Size(), t.buffer, flags, ok, p);
        if !ok && InDirty(p, t.Base(), t.Size(), flags, |flags|) {
          assert t.Dirty(p);
        } else if view[p] != file.bytes[p] {
          assert old(Pending(p));
          var s :| s in tracks && old(s.Loaded()) && old(s.Dirty(p));
          assert s.Loaded() && s.Dirty(p);
        }
      }
    }

    /** Reads a track into an empty slot, reusing the object of an evicted track if there is one. */
    method Load(index: nat, track: nat, disktrk: DiskTrack?) returns (ok: bool)
      requires Coherent() && index < CACHE_MAX && cache[index].disktrk == null
      requires track * SECTORS_PER_TRACK < blocks && !Lru.IsHeld(slots, track)
      requires disktrk != null ==> disktrk !in tracks
      modifies this`cache, this`slots, this`tracks, {disktrk}, file`failures
      ensures Coherent()
      ensures old(file.failures) <= file.failures
      ensures !ok ==> old(file.failures) < file.failures
      ensures !ok ==> cache == old(cache) && slots == old(slots) && tracks == old(tracks)
      ensures ok ==> cache[index].disktrk != null && tracks == old(tracks) + {cache[index].disktrk}
      ensures ok ==> cache[index].disktrk.trackNumber == track
      ensures ok ==> disktrk == null ==> fresh(cache[index].disktrk)
      ensures ok ==> disktrk != null ==> cache[index].disktrk == disktrk
      ensures ok ==> slots == old(slots)[index := Lru.Held(track, cache[index].serial)]
    {
      var t: DiskTrack;
      if disktrk == null {
        t := new DiskTrack();
      } else {
        t := disktrk;
      }
      NotHeld(track);
      ok := Fill(t, track);
      if ok {
        Insert(index, t);
      }
    }

    /** Initializes a track that is in no slot and reads it from the file. */
    method Fill(t: DiskTrack, track: nat) returns (ok: bool)
      requires Coherent() && t !in tracks
      requires track * SECTORS_PER_TRACK < blocks
      requires forall s :: s in tracks ==> s.trackNumber != track
      modifies t, file`failures
      ensures Coherent() && t.trackNumber == track
      ensures old(file.failures) <= file.failures
      ensures !ok ==> old(file.failures) < file.failures
      ensures ok ==> Mirrors(t)
    {
      hide Offset, SectorSize;
      t.Init(track, shiftCount, SectorsOn(track));
      OffsetAscends(track * SECTORS_PER_TRACK + SectorsOn(track), blocks, SectorSize(shiftCount));
      ok := t.Load(file);
      if ok {
        OffsetSum(t.Base(), t.sectorCount, Size());
        ClearTrackShown(t);
      }
    }

    /** Puts a track into an empty slot. */
    method Insert(index: nat, t: DiskTrack)
      requires Coherent() && index < CACHE_MAX && cache[index].disktrk == null
      requires t !in tracks && Mirrors(t)
      requires forall s :: s in tracks ==> s.trackNumber != t.trackNumber
      modifies this`cache, this`slots, this`tracks
      ensures Coherent()
      ensures tracks == old(tracks) + {t}
      ensures cache == old(cache)[index := old(cache)[index].(disktrk := t)]
      ensures slots == old(slots)[index := Lru.Held(t.trackNumber, cache[index].serial)]
    {
      hide Offset, SectorSize, Splice, InDirty;
      tracks := tracks + {t};
      cache := cache[index := cache[index].(disktrk := t)];
      slots := slots[index := Lru.Held(t.trackNumber, cache[index].serial)];
      assert Covered() by {
        forall p: nat | p < |view| && view[p] != file.bytes[p]
          ensures Pending(p)
        {
          assert old(Pending(p));
        }
      }
      assert Slotted() by {
        forall j: nat | j < CACHE_MAX
          ensures SlotOk(j)
          ensures j != index ==> cache[j].disktrk != t
        {
          assert old(SlotOk(j));
        }
        forall s | s in tracks
          ensures Placed(s)
        {
          if s == t {
            assert cache[index].disktrk == s;
          } else {
            assert old(Placed(s));
            var j :| 0 <= j < CACHE_MAX && old(cache)[j].disktrk == s;
            assert cache[j].disktrk == s;
          }
        }
      }
    }

    lemma NotHeld(track: nat)
      requires Slotted() && !Lru.IsHeld(slots, track)
      ensures forall t :: t in tracks ==> t.trackNumber != track
    {
      forall t | t in tracks
        ensures t.trackNumber != track
      {
        assert Placed(t);
        var i :| 0 <= i < CACHE_MAX && cache[i].disktrk == t;
        assert SlotOk(i);
      }
    }

    /** A track that is read from the file shows what the view shows. */
    lemma ClearTrackShown(t: DiskTrack)
      requires 8 <= shiftCount <= 12 && Mirrored() && Covered()
      requires t.Loaded() && t.shiftCount == shiftCount
      requires forall s :: s in tracks ==> s.trackNumber != t.trackNumber
      requires t.Start() + |t.buffer| <= |view|
      requires t.buffer == file.bytes[t.Start()..t.Start() + |t.buffer|]
      ensures t.buffer == view[t.Start()..t.Start() + |t.buffer|]
    {
      OffsetSum(t.Base(), t.sectorCount, Size());
      forall p | t.Start() <= p < t.Start() + |t.buffer|
        ensures view[p] == file.bytes[p]
      {
        if Pending(p) {
          NotPending(t.trackNumber, t.sectorCount, p);
        }
      }
    }

    /** Saves the track of a slot and takes it out of the cache. */
    method Evict(c: nat) returns (ok: bool, t: DiskTrack)
      requires Coherent() && c < CACHE_MAX && cache[c].disktrk != null
      modifies this`cache, this`slots, this`tracks, file, cache[c].disktrk`isModified, cache[c].disktrk`modifiedFlags
      ensures Coherent() && t == old(cache[c].disktrk)
      ensures old(file.failures) <= file.failures
      ensures !ok ==> old(file.failures) < file.failures
      ensures file.full ==> file.bytes == old(file.bytes)
      ensures !ok ==> cache == old(cache) && slots == old(slots) && tracks == old(tracks)
      ensures ok ==> cache == old(cache)[c := old(cache)[c].(disktrk := null)]
      ensures ok ==> slots == old(slots)[c := Lru.Empty] && tracks == old(tracks) - {t}
    {
      assert SlotOk(c);
      t := cache[c].disktrk;
      ok := SaveTrack(t);
      if ok {
        Remove(c, t);
      }
    }

    method Remove(c: nat, t: DiskTrack)
      requires Coherent() && c < CACHE_MAX && cache[c].disktrk == t && t in tracks && !t.isModified
      modifies this`cache, this`slots, this`tracks
      ensures Coherent()
      ensures cache == old(cache)[c := old(cache)[c].(disktrk := null)]
      ensures slots == old(slots)[c := Lru.Empty] && tracks == old(tracks) - {t}
    {
      assert Mirrors(t);
      cache := cache[c := cache[c].(disktrk := null)];
      slots := slots[c := Lru.Empty];
      tracks := tracks - {t};
      forall p: nat | p < |view| && view[p] != file.bytes[p]
        ensures Pending(p)
      {
        assert old(Pending(p));
        var s :| s in old(tracks) && s.Loaded() && s.Dirty(p);
        assert s != t;
      }
      forall j: nat | j < CACHE_MAX
        ensures SlotOk(j)
      {
        assert old(SlotOk(j));
      }
      forall s | s in tracks
        ensures Placed(s)
      {
        assert old(Placed(s));
        var j :| 0 <= j < CACHE_MAX && old(cache)[j].disktrk == s;
        assert cache[j].disktrk == s;
      }
    }

    /** Finds the track, or assigns it to the first empty slot, or to the slot with the smallest
        serial number once its track is saved. */
    method Assign(track: nat) returns (r: DiskTrack?, ghost chosen: nat)
      requires Coherent() && track * SECTORS_PER_TRACK < blocks
      modifies this`cache, this`slots, this`tracks, file, tracks
      ensures Coherent() && fresh(tracks - old(tracks))
      ensures old(file.failures) <= file.failures
      ensures r == null ==> old(file.failures) < file.failures
      ensures file.full ==> file.bytes == old(file.bytes)
      ensures r != null ==> Holds(r, track) && Lru.Chosen(old(slots), track, chosen)
      ensures r != null ==> slots == old(slots)[chosen := Lru.Held(track, serial)]
    {
      for i := 0 to CACHE_MAX
        invariant forall j :: 0 <= j < i ==> slots[j].Held? ==> slots[j].track != track
      {
        assert SlotOk(i);
        if cache[i].disktrk != null && cache[i].disktrk.trackNumber == track {
          SetSerial(i, serial);
          return cache[i].disktrk, i;
        }
      }
      assert !Lru.IsHeld(slots, track);

      for i := 0 to CACHE_MAX
        invariant forall j :: 0 <= j < i ==> slots[j].Held?
      {
        assert SlotOk(i);
        if cache[i].disktrk == null {
          r := Occupy(i, track, null);
          return r, i;
        }
      }

      var s, c := cache[0].serial, 0;
      assert SlotOk(0);
      for i := 0 to CACHE_MAX
        invariant 0 <= c < CACHE_MAX && s == cache[c].serial == slots[c].serial
        invariant forall j :: 0 <= j < i ==> s <= slots[j].serial
      {
        assert SlotOk(i);
        if cache[i].serial < s {
          s, c := cache[i].serial, i;
        }
      }
      assert SlotOk(c);
      r := Replace(c, track);
      chosen := c;
    }

    ghost predicate Holds(t: DiskTrack, track: nat)
      reads this`tracks, t
    {
      t in tracks && t.trackNumber == track
    }

    /** Loads a track into an empty slot and stamps it with the current serial number. */
    method Occupy(i: nat, track: nat, disktrk: DiskTrack?) returns (r: DiskTrack?)
      requires Coherent() && i < CACHE_MAX && cache[i].disktrk == null
      requires track * SECTORS_PER_TRACK < blocks && !Lru.IsHeld(slots, track)
      requires disktrk != null ==> disktrk !in tracks
      modifies this`cache, this`slots, this`tracks, {disktrk}, file`failures
      ensures Coherent() && fresh(tracks - old(tracks) - {disktrk})
      ensures old(file.failures) <= file.failures
      ensures r == null ==> old(file.failures) < file.failures
      ensures r != null ==> Holds(r, track) && slots == old(slots)[i := Lru.Held(track, serial)]
    {
      var ok := Load(i, track, disktrk);
      if !ok {
        return null;
      }
      r := cache[i].disktrk;
      SetSerial(i, serial);
    }

    /** Evicts the track in slot c and loads another one in its place. */
    method Replace(c: nat, track: nat) returns (r: DiskTrack?)
      requires Coherent() && c < CACHE_MAX && cache[c].disktrk != null
      requires track * SECTORS_PER_TRACK < blocks && !Lru.IsHeld(slots, track)
      modifies this`cache, this`slots, this`tracks, file, tracks
      ensures Coherent() && fresh(tracks - old(tracks))
      ensures old(file.failures) <= file.failures
      ensures r == null ==> old(file.failures) < file.failures
      ensures file.full ==> file.bytes == old(file.bytes)
      ensures r != null ==> Holds(r, track) && slots == old(slots)[c := Lru.Held(track, serial)]
    {
      assert SlotOk(c);
      var ok, disktrk := Evict(c);
      if !ok {
        return null;
      }
      r := Occupy(c, track, disktrk);
    }

    /** The track of a sector, cached afterwards unless a transfer failed. */
    method GetTrack(block: nat) returns (r: DiskTrack?)
      requires Valid() && block / SECTORS_PER_TRACK * SECTORS_PER_TRACK < blocks
      modifies this`serial, this`history, this`faultless, this`cache, this`slots, this`tracks, file, tracks
      ensures Valid() && fresh(tracks - old(tracks))
      ensures old(file.failures) <= file.failures
      ensures r == null ==> old(file.failures) < file.failures
      ensures file.full ==> file.bytes == old(file.bytes)
      ensures history == old(history) + [block / 256]
      ensures faultless == (old(faultless) && r != null)
      ensures file.failures == old(file.failures) ==> faultless == old(faultless)
      ensures r != null ==> Holds(r, block / SECTORS_PER_TRACK)
    {
      UpdateSerial();
      var track := block / SECTORS_PER_TRACK;
      ghost var before, chosen := slots, 0;
      r, chosen := Assign(track);
      Note(before, track, chosen, r != null);
    }

    /** Adds an access to the ghost history. */
    ghost method Note(before: seq<Lru.Slot>, track: nat, chosen: nat, ok: bool)
      requires Coherent()
      requires faultless && |history| + 1 < 0x1_0000_0000 ==> serial == |history| + 1
      requires faultless && |history| + 1 < 0x1_0000_0000 ==> Lru.Tracks(history, before)
      requires ok ==> Lru.Chosen(before, track, chosen) && slots == before[chosen := Lru.Held(track, serial)]
      modifies this`history, this`faultless
      ensures Valid()
      ensures history == old(history) + [track] && faultless == (old(faultless) && ok)
    {
      if ok && faultless && |history| + 1 < 0x1_0000_0000 {
        Lru.Access(history, before, track, chosen);
      }
      history := history + [track];
      faultless := faultless && ok;
    }

    /** As long as no transfer has failed and the serial numbers have not wrapped, the cached tracks are
        the 16 most recently accessed ones. */
    lemma CachedAreMostRecent()
      requires Valid() && faultless && |history| < 0x1_0000_0000
      ensures (set t | t in tracks :: t.trackNumber) == Lru.MostRecent(history, 16)
    {
      Lru.HeldAreMostRecent(history, slots);
      forall t | t in tracks
        ensures t.trackNumber in Lru.HeldTracks(slots)
      {
        assert Placed(t);
        var i :| 0 <= i < |cache| && cache[i].disktrk == t;
        assert SlotOk(i);
      }
      forall n | n in Lru.HeldTracks(slots)
        ensures n in set t | t in tracks :: t.trackNumber
      {
        var i :| 0 <= i < |slots| && slots[i].Held? && slots[i].track == n;
        assert SlotOk(i) && cache[i].disktrk in tracks;
      }
    }

    /** Reads one sector of the view. */
    method ReadSectors(sector: nat, count: nat) returns (length: nat, data: Bytes)
      requires Valid() && sector / SECTORS_PER_TRACK * SECTORS_PER_TRACK < blocks
      modifies this`serial, this`history, this`faultless, this`cache, this`slots, this`tracks, file, tracks
      ensures Valid() && fresh(tracks - old(tracks))
      ensures old(file.failures) <= file.failures
      ensures count == 1 && sector < blocks && length == 0 ==> old(file.failures) < file.failures
      ensures file.full ==> file.bytes == old(file.bytes)
      ensures count != 1 ==> length == 0 && history == old(history) && faultless == old(faultless)
      ensures count == 1 ==> history == old(history) + [sector / 256]
      ensures length != 0 ==> length == |data| == Size() && Offset(sector + 1, Size()) <= |view|
      ensures length != 0 ==> data == SectorAt(view, sector, Size())
      ensures file.failures == old(file.failures) ==> faultless == old(faultless)
      ensures count == 1 && sector < blocks && length == 0 ==> !faultless
      ensures length != 0 ==> sector < blocks && count == 1 && faultless == old(faultless)
    {
      length, data := 0, [];
      if count != 1 {
        return;
      }
      var t := GetTrack(sector);
      if t == null {
        return;
      }
      assert Mirrors(t);
      SectorShown(t, sector);
      length, data := t.ReadSector(sector % SECTORS_PER_TRACK);
    }

    /** The buffer of a cached track holds the sectors of the view. */
    lemma SectorShown(t: DiskTrack, sector: nat)
      requires Mirrors(t) && t.trackNumber == sector / SECTORS_PER_TRACK
      ensures sector % SECTORS_PER_TRACK < t.sectorCount <==> sector < blocks
      ensures sector < blocks ==>
                && Offset(sector + 1, Size()) <= |view|
                && Offset(sector % SECTORS_PER_TRACK + 1, Size()) <= |t.buffer|
                && SectorAt(t.buffer, sector % SECTORS_PER_TRACK, Size()) == SectorAt(view, sector, Size())
    {
      SplitSector(sector, t.sectorCount);
      if sector < blocks {
        var k := sector % SECTORS_PER_TRACK;
        SliceOfSlice(view, t.Start(), t.Start() + |t.buffer|, Offset(k, Size()), Offset(k + 1, Size()));
      }
    }

    /** Where a sector lies in its track and on the medium. */
    lemma SplitSector(sector: nat, count: nat)
      requires 8 <= shiftCount <= 12
      ensures var t, k := sector / SECTORS_PER_TRACK, sector % SECTORS_PER_TRACK;
              && Offset(t * SECTORS_PER_TRACK, Size()) + Offset(k, Size()) == Offset(sector, Size())
              && Offset(sector + 1, Size()) == Offset(sector, Size()) + Size()
              && Offset(k + 1, Size()) == Offset(k, Size()) + Size()
              && (k < count ==> Offset(k + 1, Size()) <= Offset(count, Size()))
    {
      var t, k := sector / SECTORS_PER_TRACK, sector % SECTORS_PER_TRACK;
      assert sector == t * SECTORS_PER_TRACK + k;
      OffsetSum(t * SECTORS_PER_TRACK, k, Size());
      if k < count {
        OffsetAscends(k + 1, count, Size());
      }
    }

    /** Writes one sector of the view. */
    method WriteSectors(data: Bytes, sector: nat, count: nat) returns (length: nat)
      requires Valid() && sector / SECTORS_PER_TRACK * SECTORS_PER_TRACK < blocks && |data| == Size()
      modifies this`serial, this`history, this`faultless, this`cache, this`slots, this`tracks, this`view, file, tracks
      ensures Valid() && fresh(tracks - old(tracks))
      ensures old(file.failures) <= file.failures
      ensures count == 1 && sector < blocks && length == 0 ==> old(file.failures) < file.failures
      ensures file.full ==> file.bytes == old(file.bytes)
      ensures count != 1 ==> length == 0 && history == old(history) && faultless == old(faultless)
      ensures count == 1 ==> history == old(history) + [sector / 256]
      ensures file.failures == old(file.failures) ==> faultless == old(faultless)
      ensures count == 1 && sector < blocks && length == 0 ==> !faultless
      ensures length != 0 ==> sector < blocks && count == 1 && faultless == old(faultless)
      ensures |view| == |old(view)| && (length == 0 ==> view == old(view))
      ensures length != 0 ==> length == Size() && Offset(sector, Size()) + Size() <= |view|
      ensures length != 0 ==> view == Splice(old(view), Offset(sector, Size()), data)
    {
      if count != 1 {
        return 0;
      }
      var t := GetTrack(sector);
      if t == null {
        return 0;
      }
      assert Mirrors(t);
      SectorShown(t, sector);
      if sector >= blocks {
        length := t.WriteSector(data, sector % SECTORS_PER_TRACK);
      } else {
        length := Store(t, data, sector);
      }
    }

    /** The sector is in a cached track: the write changes its buffer and the view. */
    method Store(t: DiskTrack, data: Bytes, sector: nat) returns (length: nat)
      requires Valid() && Holds(t, sector / SECTORS_PER_TRACK) && sector < blocks && |data| == Size()
      modifies this`view, t`buffer, t`isModified, t`modifiedFlags
      ensures Valid() && length == Size() && |view| == |old(view)| && Offset(sector, Size()) + Size() <= |view|
      ensures view == Splice(old(view), Offset(sector, Size()), data)
    {
      assert Mirrors(t);
      ghost var before, flags := t.buffer, t.modifiedFlags;
      length := Modify(t, data, sector);
      forall p: nat | p < |view| && view[p] != file.bytes[p]
        ensures Pending(p) || InDirty(p, t.Base(), t.Size(), flags, t.sectorCount)
      {
        assert old(Pending(p));
        var s :| s in tracks && old(s.Loaded()) && old(s.Dirty(p));
        assert s != t ==> s.Loaded() && s.Dirty(p);
      }
      assert forall s :: s in tracks && s != t ==> old(Mirrors(s));
      ShowSector(t, data, sector, before, flags);
    }

    /** Writes to the buffer of a cached track, ahead of the view. */
    method Modify(t: DiskTrack, data: Bytes, sector: nat) returns (length: nat)
      requires Mirrors(t) && t.trackNumber == sector / SECTORS_PER_TRACK && sector < blocks && |data| == Size()
      modifies t`buffer, t`isModified, t`modifiedFlags
      ensures Ahead(t, data, sector, old(t.buffer), old(t.modifiedFlags)) && length == Size()
    {
      SectorShown(t, sector);
      SplitSector(sector, t.sectorCount);
      SpliceInSlice(view, Offset(sector, Size()), data, t.Start(), t.buffer,
                    Offset(sector % SECTORS_PER_TRACK, Size()));
      length := t.WriteSector(data, sector % SECTORS_PER_TRACK);
    }

    /** Track t is one write ahead of the view: its buffer was `before`, its flags were `flags`. */
    ghost predicate Ahead(t: DiskTrack, data: Bytes, sector: nat, before: Bytes, flags: seq<bool>)
      reads this`view, t
    {
      && 8 <= shiftCount <= 12 && t.Loaded() && t.shiftCount == shiftCount
      && t.trackNumber == sector / SECTORS_PER_TRACK && t.Base() < blocks && t.sectorCount == SectorsOn(t.trackNumber)
      && sector % SECTORS_PER_TRACK < t.sectorCount == |flags|
      && |data| == Size() && Offset(sector, Size()) + |data| <= |view|
      && t.Start() + |before| <= |view| && before == view[t.Start()..t.Start() + |before|]
      && Offset(sector % SECTORS_PER_TRACK, Size()) + |data| <= |before|
      && t.buffer == Splice(before, Offset(sector % SECTORS_PER_TRACK, Size()), data)
      && t.buffer == Splice(view, Offset(sector, Size()), data)[t.Start()..t.Start() + |before|]
      && t.modifiedFlags == (if t.buffer == before then flags else flags[sector % SECTORS_PER_TRACK := true])
    }

    /** Brings the view up to date with a write to the buffer of track t. */
    ghost method ShowSector(t: DiskTrack, data: Bytes, sector: nat, before: Bytes, flags: seq<bool>)
      requires Ahead(t, data, sector, before, flags) && t in tracks
      requires Offset(blocks, Size()) <= |view| == |file.bytes|
      requires forall s :: s in tracks && s != t ==> Mirrors(s) && s.trackNumber != t.trackNumber
      requires forall r, s :: r in tracks && s in tracks && r.trackNumber == s.trackNumber ==> r == s
      requires forall p: nat :: p < |view| && view[p] != file.bytes[p] ==>
                 Pending(p) || InDirty(p, t.Base(), t.Size(), flags, t.sectorCount)
      requires Slotted() && Counting(|history|)
      modifies this`view
      ensures Valid() && view == Splice(old(view), Offset(sector, Size()), data)
    {
      hide Offset, SectorSize, Splice, InDirty;
      ghost var next := Splice(view, Offset(sector, Size()), data);
      forall p: nat | p < |view| && next[p] != file.bytes[p]
        ensures Pending(p)
      {
        if next[p] != view[p] {
          ChangedByte(t, data, sector, before, flags, p);
        } else if !Pending(p) {
          FlagKept(t, data, sector, before, flags, p);
        }
      }
      forall s | s in tracks && s != t
        ensures next[s.Start()..s.Start() + |s.buffer|] == s.buffer
      {
        OtherTrackKept(s, view, data, sector);
      }
      view := next;
      assert Mirrored();
    }

    /** A byte that a write changed is in the sector that was flagged. */
    lemma ChangedByte(t: DiskTrack, data: Bytes, sector: nat, before: Bytes, flags: seq<bool>, p: nat)
      requires Ahead(t, data, sector, before, flags) && p < |view|
      requires Splice(view, Offset(sector, Size()), data)[p] != view[p]
      ensures t.Dirty(p)
    {
      hide Offset, SectorSize, Splice, InDirty, InSector;
      var base, size, k := t.Base(), t.Size(), sector % SECTORS_PER_TRACK;
      assert sector == base + k && size == Size();
      assert Offset(base + k, size) == Offset(sector, Size());
      BufferChanged(view, before, t.buffer, base, k, size, data, p);
      IsDirty(p, t.Base(), t.Size(), t.modifiedFlags, t.sectorCount, k);
    }

    /** A write keeps every flag. */
    lemma FlagKept(t: DiskTrack, data: Bytes, sector: nat, before: Bytes, flags: seq<bool>, p: nat)
      requires Ahead(t, data, sector, before, flags)
      requires InDirty(p, t.Base(), t.Size(), flags, t.sectorCount)
      ensures t.Dirty(p)
    {
      hide Offset, SectorSize, Splice, InSector;
      var j: nat :| j < t.sectorCount && flags[j] && InSector(p, t.Base() + j, Size());
      IsDirty(p, t.Base(), t.Size(), t.modifiedFlags, t.sectorCount, j);
    }

    lemma OtherTrackKept(s: DiskTrack, before: Bytes, data: Bytes, sector: nat)
      requires 8 <= shiftCount <= 12 && s.Loaded() && s.shiftCount == shiftCount
      requires s.trackNumber != sector / SECTORS_PER_TRACK
      requires s.Start() + |s.buffer| <= |before| && |data| == Size() && Offset(sector, Size()) + |data| <= |before|
      ensures Splice(before, Offset(sector, Size()), data)[s.Start()..s.Start() + |s.buffer|]
           == before[s.Start()..s.Start() + |s.buffer|]
    {
      hide *;
      TrackRange(s);
      OtherPartKept(before, s.trackNumber, s.sectorCount, sector, Size(), data);
    }

    lemma TrackRange(s: DiskTrack)
      requires 8 <= shiftCount <= 12 && s.Loaded() && s.shiftCount == shiftCount
      ensures s.Start() == Offset(s.trackNumber * 256, Size()) && s.sectorCount <= 256
      ensures s.Start() + |s.buffer| == Offset(s.trackNumber * 256 + s.sectorCount, Size())
      ensures SECTORS_PER_TRACK == 256
    {
      OffsetSum(s.Base(), s.sectorCount, Size());
      hide Offset, SectorSize;
    }

    /** Saves every track. Success means the file shows the whole view, and otherwise the file lacks only bytes
        that were pending before. */
    method Flush() returns (ok: bool)
      requires Valid()
      modifies file, tracks
      ensures Valid()
      ensures old(file.failures) <= file.failures
      ensures !ok ==> old(file.failures) < file.failures
      ensures file.full ==> file.bytes == old(file.bytes)
      ensures forall p: nat :: Pending(p) ==> old(Pending(p))
      ensures ok ==> file.bytes == view && forall t :: t in tracks ==> !t.isModified
    {
      hide Offset, SectorSize;
      for i := 0 to CACHE_MAX
        invariant Valid()
        invariant forall p: nat :: Pending(p) ==> old(Pending(p))
        invariant file.full ==> file.bytes == old(file.bytes)
        invariant old(file.failures) <= file.failures
        invariant forall j :: 0 <= j < i && cache[j].disktrk != null ==> SlotOk(j) && !cache[j].disktrk.isModified
      {
        assert SlotOk(i);
        if cache[i].disktrk != null {
          ok := SaveTrack(cache[i].disktrk);
          if !ok {
            return;
          }
        }
      }
      ok := true;
      forall t | t in tracks
        ensures !t.isModified && t.Loaded()
      {
        assert Placed(t) && Mirrors(t);
      }
      forall p: nat | p < |view|
        ensures view[p] == file.bytes[p]
      {
        assert !Pending(p);
      }
    }
  }

  /** A byte the file does not show after a save is in a dirty sector of that track, still flagged
      because the save failed, or the file did not show it before and it is of another track. */
  lemma ByteAfterSave(view: Bytes, before: Bytes, after: Bytes, base: nat, size: nat, buffer: Bytes, flags: seq<bool>,
                      ok: bool, p: nat)
    requires p < |view| == |before| == |after|
    requires Offset(base, size) + |buffer| <= |view|
    requires buffer == view[Offset(base, size)..Offset(base, size) + |buffer|]
    requires KeepsClean(before, after, base, size, flags)
    requires ok ==> forall q: nat :: q < |before| ==> SavedByte(before, after, base, size, buffer, flags, q)
    ensures
      || view[p] == after[p]
      || (!ok && InDirty(p, base, size, flags, |flags|))
      || (view[p] != before[p] && !InDirty(p, base, size, flags, |flags|))
  {
    if ok {
      assert SavedByte(before, after, base, size, buffer, flags, p);
    }
  }

  lemma BufferChanged(view: Bytes, before: Bytes, after: Bytes, base: nat, k: nat, size: nat, data: Bytes, p: nat)
    requires Offset(base, size) + |before| <= |view|
    requires before == view[Offset(base, size)..Offset(base, size) + |before|]
    requires Offset(k, size) + |data| <= |before| && |data| == size
    requires after == Splice(before, Offset(k, size), data)
    requires p < |view| && Offset(base + k, size) + |data| <= |view|
    requires Splice(view, Offset(base + k, size), data)[p] != view[p]
    ensures before != after && InSector(p, base + k, size)
  {
    OffsetSum(base, k, size);
    SpliceAt(view, Offset(base + k, size), data, p);
    SpliceAt(before, Offset(k, size), data, p - Offset(base, size));
    assert before[p - Offset(base, size)] == view[p];
  }

  lemma SliceOfSlice(f: Bytes, a: nat, b: nat, c: nat, d: nat)
    requires c <= d && a + d <= b <= |f|
    ensures f[a..b][c..d] == f[a + c..a + d]
  {
    forall i | 0 <= i < d - c
      ensures f[a..b][c..d][i] == f[a + c..a + d][i]
    {
    }
  }

  lemma SpliceInSlice(f: Bytes, pos: nat, data: Bytes, a: nat, part: Bytes, off: nat)
    requires a + |part| <= |f| && part == f[a..a + |part|] && pos == a + off && off + |data| <= |part|
    ensures Splice(f, pos, data)[a..a + |part|] == Splice(part, off, data)
  {
  }

  /** A byte of the first n sectors of a track is in no sector of another track. */
  lemma TrackOfByte(p: nat, track: nat, n: nat, sector: nat, size: nat)
    requires n <= SECTORS_PER_TRACK && InSector(p, sector, size)
    requires Offset(track * SECTORS_PER_TRACK, size) <= p < Offset(track * SECTORS_PER_TRACK + n, size)
    ensures sector / SECTORS_PER_TRACK == track
  {
    var s := SectorOf(p, track * SECTORS_PER_TRACK, track * SECTORS_PER_TRACK + n, size);
    SectorsDisjoint(p, s, sector, size);
  }

  /** A sector of another track does not reach into a track. */
  lemma OtherPartKept(f: Bytes, track: nat, n: nat, sector: nat, size: nat, data: Bytes)
    requires n <= 256 && track != sector / 256 && |data| == size
    requires Offset(track * 256 + n, size) <= |f| && Offset(sector, size) + size <= |f|
    ensures Offset(track * 256, size) <= Offset(track * 256 + n, size)
    ensures var a, b := Offset(track * 256, size), Offset(track * 256 + n, size);
            Splice(f, Offset(sector, size), data)[a..b] == f[a..b]
  {
    OffsetAscends(track * 256, track * 256 + n, size);
    assert Offset(sector + 1, size) == Offset(sector, size) + size;
    if sector < track * 256 {
      OffsetAscends(sector + 1, track * 256, size);
    } else {
      OffsetAscends(track * 256 + n, sector, size);
    }
    SliceKept(f, Offset(sector, size), data, Offset(track * 256, size), Offset(track * 256 + n, size));
    hide Offset, Splice;
  }

  lemma SliceKept(f: Bytes, pos: nat, data: Bytes, a: nat, b: nat)
    requires pos + |data| <= |f| && a <= b <= |f| && (pos + |data| <= a || b <= pos)
    ensures Splice(f, pos, data)[a..b] == f[a..b]
  {
  }
}
