/** Directory blocks as a flat list of slots, and the finite map they represent. */
module Directory {
  import opened ZerosFs
  import opened Extents
  import Dirents

  datatype Entry = Entry(ino: nat, ftype: FileType)

  /** A block as the directory loops read it; nothing tells them apart from file bytes. */
  function SlotsOf(b: Block): SlotTable {
    match b
    case Slots(s) => s
    case Bytes(data) => Dirents.DecodeSlots(data)
  }

  /** Every block number can be read from the disk. */
  predicate Readable(blocks: seq<Block>, bs: seq<nat>) {
    forall i | 0 <= i < |bs| :: bs[i] < |blocks|
  }

  /** The slots of a directory in scan order, up to the first unreadable block. */
  function DirSlots(blocks: seq<Block>, bs: seq<nat>): seq<Dirent> {
    if bs == [] || bs[0] >= |blocks| then []
    else SlotsOf(blocks[bs[0]]) + DirSlots(blocks, bs[1..])
  }

  lemma {:induction false} DirSlotsAt(blocks: seq<Block>, bs: seq<nat>)
    requires Readable(blocks, bs)
    ensures |DirSlots(blocks, bs)| == DIRENTS_PER_BLOCK * |bs|
    ensures forall k | 0 <= k < DIRENTS_PER_BLOCK * |bs| ::
              DirSlots(blocks, bs)[k] == SlotsOf(blocks[bs[k / 8]])[k % 8]
  {
    if bs != [] {
      DirSlotsAt(blocks, bs[1..]);
      var tail := DirSlots(blocks, bs[1..]);
      forall k | 0 <= k < DIRENTS_PER_BLOCK * |bs|
        ensures DirSlots(blocks, bs)[k] == SlotsOf(blocks[bs[k / 8]])[k % 8]
      {
        if k >= 8 {
          assert (k - 8) / 8 == k / 8 - 1 && (k - 8) % 8 == k % 8;
          assert bs[1..][k / 8 - 1] == bs[k / 8];
        }
      }
    }
  }

  lemma {:induction false} DirSlotsConcat(blocks: seq<Block>, bs: seq<nat>, cs: seq<nat>)
    requires Readable(blocks, bs)
    ensures DirSlots(blocks, bs + cs) == DirSlots(blocks, bs) + DirSlots(blocks, cs)
  {
    if bs == [] {
      assert bs + cs == cs;
    } else {
      assert (bs + cs)[1..] == bs[1..] + cs;
      DirSlotsConcat(blocks, bs[1..], cs);
    }
  }

  lemma SlotsOfPrefix(blocks: seq<Block>, bs: seq<nat>, n: nat)
    requires n < |bs| && Readable(blocks, bs[..n]) && bs[n] < |blocks|
    ensures DirSlots(blocks, bs[..n + 1]) == DirSlots(blocks, bs[..n]) + SlotsOf(blocks[bs[n]])
  {
    assert bs[..n + 1] == bs[..n] + [bs[n]];
    DirSlotsConcat(blocks, bs[..n], [bs[n]]);
    assert DirSlots(blocks, [bs[n]]) == SlotsOf(blocks[bs[n]]) + DirSlots(blocks, [bs[n]][1..]);
  }

  lemma SlotsFromPrefix(blocks: seq<Block>, bs: seq<nat>, n: nat)
    requires n <= |bs| && Readable(blocks, bs[..n])
    ensures DirSlots(blocks, bs) == DirSlots(blocks, bs[..n]) + DirSlots(blocks, bs[n..])
  {
    assert bs == bs[..n] + bs[n..];
    DirSlotsConcat(blocks, bs[..n], bs[n..]);
  }

  lemma {:induction false} DirSlotsFrame(blocks: seq<Block>, blocks': seq<Block>, bs: seq<nat>)
    requires |blocks| == |blocks'|
    requires forall i | 0 <= i < |bs| && bs[i] < |blocks| :: blocks[bs[i]] == blocks'[bs[i]]
    ensures DirSlots(blocks, bs) == DirSlots(blocks', bs)
  {
    if bs != [] && bs[0] < |blocks| {
      DirSlotsFrame(blocks, blocks', bs[1..]);
    }
  }

  /** Writing slot k%8 of the k/8-th block writes exactly slot k of the directory. */
  lemma DirSlotsPut(blocks: seq<Block>, bs: seq<nat>, k: nat, e: Dirent)
    requires Readable(blocks, bs) && NoDup(bs)
    requires k < DIRENTS_PER_BLOCK * |bs|
    ensures |DirSlots(blocks, bs)| == DIRENTS_PER_BLOCK * |bs|
    ensures DirSlots(blocks[bs[k / 8] := Slots(SlotsOf(blocks[bs[k / 8]])[k % 8 := e])], bs)
         == DirSlots(blocks, bs)[k := e]
  {
    var blocks' := blocks[bs[k / 8] := Slots(SlotsOf(blocks[bs[k / 8]])[k % 8 := e])];
    DirSlotsAt(blocks, bs);
    DirSlotsAt(blocks', bs);
    forall i | 0 <= i < DIRENTS_PER_BLOCK * |bs|
      ensures DirSlots(blocks', bs)[i] == DirSlots(blocks, bs)[k := e][i]
    {
      if i / 8 == k / 8 {
        assert i % 8 == k % 8 <==> i == k;
      }
    }
  }

  /** What a scan looks for: a free slot, or a used slot with a given name. */
  datatype Key = FreeSlot | Named(name: string)

  predicate Matches(e: Dirent, key: Key) {
    match key
    case FreeSlot => e.Free()
    case Named(n) => !e.Free() && e.name == n
  }

  /** Index of the first matching slot, or |slots|. */
  function Find(slots: seq<Dirent>, key: Key): (k: nat)
    ensures k <= |slots|
    ensures k < |slots| ==> Matches(slots[k], key)
    ensures forall j | 0 <= j < k :: !Matches(slots[j], key)
  {
    if slots == [] then 0
    else if Matches(slots[0], key) then 0
    else 1 + Find(slots[1..], key)
  }

  lemma {:induction false} FindConcat(s: seq<Dirent>, t: seq<Dirent>, key: Key)
    requires Find(s, key) == |s|
    ensures Find(s + t, key) == |s| + Find(t, key)
  {
    if s == [] {
      assert s + t == t;
    } else {
      assert (s + t)[1..] == s[1..] + t;
      FindConcat(s[1..], t, key);
    }
  }

  /** The finite map a slot list represents: names to inode number and type. */
  function Entries(slots: seq<Dirent>): map<string, Entry> {
    if slots == [] then map[]
    else
      var rest := Entries(slots[1..]);
      if slots[0].Free() then rest
      else rest[slots[0].name := Entry(slots[0].ino, slots[0].ftype)]
  }

  /** No two used slots carry the same name. */
  ghost predicate UniqueNames(slots: seq<Dirent>) {
    forall i, j | 0 <= i < j < |slots| && !slots[i].Free() && !slots[j].Free() ::
      slots[i].name != slots[j].name
  }

  /** The linear scan reads the map. */
  lemma {:induction false} FindIsLookup(slots: seq<Dirent>, name: string)
    ensures var k := Find(slots, Named(name));
            if k < |slots| then
              name in Entries(slots) && Entries(slots)[name] == Entry(slots[k].ino, slots[k].ftype)
            else name !in Entries(slots)
  {
    if slots != [] {
      FindIsLookup(slots[1..], name);
    }
  }

  /** Filling a free slot with a fresh name is map insertion. */
  lemma {:induction false} EntriesInsert(slots: seq<Dirent>, k: nat, e: Dirent)
    requires k < |slots| && slots[k].Free() && !e.Free()
    requires e.name !in Entries(slots)
    ensures Entries(slots[k := e]) == Entries(slots)[e.name := Entry(e.ino, e.ftype)]
  {
    if k == 0 {
      assert slots[k := e][1..] == slots[1..];
    } else {
      assert slots[k := e][1..] == slots[1..][k - 1 := e];
      EntriesInsert(slots[1..], k - 1, e);
    }
  }

  lemma {:induction false} EntriesAbsent(slots: seq<Dirent>, name: string)
    ensures (forall i | 0 <= i < |slots| && !slots[i].Free() :: slots[i].name != name)
            <==> name !in Entries(slots)
  {
    FindIsLookup(slots, name);
    var k := Find(slots, Named(name));
    if k == |slots| {
      forall i | 0 <= i < |slots| && !slots[i].Free() ensures slots[i].name != name {
        assert !Matches(slots[i], Named(name));
      }
    }
  }

  /** Freeing the only slot with its name is map deletion. */
  lemma {:induction false} EntriesRemove(slots: seq<Dirent>, k: nat)
    requires k < |slots| && !slots[k].Free() && UniqueNames(slots)
    ensures Entries(slots[k := slots[k].(ino := NONE)]) == Entries(slots) - {slots[k].name}
  {
    var slots' := slots[k := slots[k].(ino := NONE)];
    if k == 0 {
      assert slots'[1..] == slots[1..];
      EntriesAbsent(slots[1..], slots[0].name);
    } else {
      assert slots'[1..] == slots[1..][k - 1 := slots[k].(ino := NONE)];
      EntriesRemove(slots[1..], k - 1);
    }
  }

  lemma {:induction false} EntriesPadding(slots: seq<Dirent>, pad: seq<Dirent>)
    requires forall i | 0 <= i < |pad| :: pad[i].Free()
    ensures Entries(slots + pad) == Entries(slots)
    decreases |slots|, |pad|
  {
    if slots != [] {
      assert (slots + pad)[1..] == slots[1..] + pad;
      EntriesPadding(slots[1..], pad);
    } else if pad != [] {
      assert slots + pad == pad;
      EntriesPadding([], pad[1..]);
      assert [] + pad[1..] == pad[1..];
    }
  }

  /** With unique names and no free slot, every slot is one name of the map. */
  lemma {:induction false} EntriesFull(slots: seq<Dirent>)
    requires UniqueNames(slots) && Find(slots, FreeSlot) == |slots|
    ensures |Entries(slots)| == |slots|
  {
    if slots != [] {
      assert !Matches(slots[0], FreeSlot);
      EntriesFull(slots[1..]);
      EntriesAbsent(slots[1..], slots[0].name);
      assert forall i | 0 <= i < |slots[1..]| :: slots[1..][i] == slots[i + 1];
    }
  }

  /** A directory never holds more names than slots. */
  lemma {:induction false} EntriesBound(slots: seq<Dirent>)
    ensures |Entries(slots)| <= |slots|
  {
    if slots != [] {
      EntriesBound(slots[1..]);
    }
  }
}
