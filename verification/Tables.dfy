/** What a table means: a successful telemetry call told on the device's own
    addresses and words. */
module Tables {
  import opened Errors
  import opened Kernel
  import opened TagIndex
  import opened Coherence
  import opened Snapshots
  import opened Telemetry

  /** Where each architecture's two pointers are, and which pointers may be
      followed: those into the 512 KiB of core shared memory. */
  lemma PointersMean(image: Image, deviceId: nat, a: Arch, ptrs: Pointers, from: nat, to: nat)
    requires ArchOf(deviceId) == Some(a) && Pointed(image, a, ptrs, from, to)
    ensures deviceId == 0x401e || deviceId == 0xb140
    ensures deviceId == 0x401e ==>
              && ptrs.tags == image(ptrs.tagsAt, Noc(0x8003_01D0, 0, 2))
              && ptrs.data == image(ptrs.dataAt, Noc(0x8003_01D4, 0, 2))
    ensures deviceId == 0xb140 ==>
              && ptrs.tags == image(ptrs.tagsAt, Noc(0x8003_0434, 8, 0))
              && ptrs.data == image(ptrs.dataAt, Noc(0x8003_0430, 8, 0))
    ensures InCsm(ptrs.tags) <==> 0x1000_0000 <= ptrs.tags < 0x1008_0000
    ensures InCsm(ptrs.data) <==> 0x1000_0000 <= ptrs.data < 0x1008_0000
  {
  }

  /** The count and the entries come from the words behind the tag pointer. */
  lemma EntriesMean(image: Image, deviceId: nat, a: Arch, ptrs: Pointers, rd: Reading, table: seq<Word>, from: nat,
          to: nat)
    requires ArchOf(deviceId) == Some(a) && Linearized(image, a, ptrs, rd, table, from, to)
    ensures rd.counted.Some? && from <= rd.counted.value <= to && |rd.at| == |rd.entries|
    ensures var count := image(rd.counted.value, Noc(ptrs.tags + 4, a.x, a.y));
            |rd.entries| == if count > 128 then 128 else count
    ensures forall i :: 0 <= i < |rd.entries| ==>
              from <= rd.at[i] <= to && rd.entries[i] == image(rd.at[i], Noc(ptrs.tags + 4 * (2 + i), a.x, a.y))
  {
    hide Build;
    hide Filled;
    hide Missed;
    Windows(deviceId, ptrs.tags, 4, a);
    forall i | 0 <= i < |rd.entries|
      ensures rd.entries[i] == image(rd.at[i], Noc(ptrs.tags + 4 * (2 + i), a.x, a.y))
    {
      Windows(deviceId, ptrs.tags, 4 * (2 + i), a);
    }
  }

  /** Entry `i` gives its tag an offset, and no later entry is for it. */
  predicate Gives(tags: seq<nat>, offs: seq<nat>, i: nat)
    requires i < |tags| == |offs|
  {
    1 <= tags[i] <= 68 && offs[i] != 0xffff && tags[i] !in tags[i + 1..]
  }

  /** For every entry that gives a tag an offset, the table holds the word behind
      the data pointer that many words on, as of an instant of the accepted pass;
      tags without an entry read as zero. */
  lemma ValuesMean(image: Image, deviceId: nat, a: Arch, ptrs: Pointers, rd: Reading, table: seq<Word>, from: nat,
          to: nat, tags: seq<nat>, offs: seq<nat>)
    requires ArchOf(deviceId) == Some(a) && Linearized(image, a, ptrs, rd, table, from, to)
    requires Packed(rd.entries, tags, offs)
    ensures |table| == |rd.pass.seen| == 69 && from <= rd.pass.first <= rd.pass.last <= to
    ensures forall i :: 0 <= i < |tags| && Gives(tags, offs, i) ==>
              var g := rd.pass.seen[tags[i]];
              && rd.pass.first <= g <= rd.pass.last
              && table[tags[i]] == image(g, Noc(ptrs.data + 4 * offs[i], a.x, a.y))
    ensures forall tag :: 0 <= tag <= 68 && (tag == 0 || tag !in tags) ==> table[tag] == 0
  {
    hide Build;
    PackedMeaning(rd.entries, tags, offs);
    forall i | 0 <= i < |tags| && Gives(tags, offs, i)
      ensures rd.m[tags[i]] == offs[i]
      ensures Cell(Csm(a), Within(ptrs.data), offs[i]) == Noc(ptrs.data + 4 * offs[i], a.x, a.y)
    {
      Windows(deviceId, ptrs.data, 4 * offs[i], a);
    }
  }

  /** With an entry that gives the heartbeat, tag 32, an offset, on a firmware that
      counts there and publishes less than 2^32 times meanwhile, all of these
      words are of one instant of the call. */
  lemma OneInstant(image: Image, deviceId: nat, a: Arch, ptrs: Pointers, rd: Reading, table: seq<Word>, from: nat,
          to: nat, tags: seq<nat>, offs: seq<nat>, b: nat)
    requires ArchOf(deviceId) == Some(a) && Linearized(image, a, ptrs, rd, table, from, to)
    requires Packed(rd.entries, tags, offs)
    requires b < |tags| && Gives(tags, offs, b) && tags[b] == 32
    requires var beat := Noc(ptrs.data + 4 * offs[b], a.x, a.y);
             forall g: nat :: image(g + 1, beat) == (image(g, beat) + 1) % 0x1_0000_0000
    requires rd.pass.last - rd.pass.first < 0x1_0000_0000
    ensures |table| == 69 && from <= rd.pass.first <= to
    ensures forall i :: 0 <= i < |tags| && Gives(tags, offs, i) ==>
              table[tags[i]] == image(rd.pass.first, Noc(ptrs.data + 4 * offs[i], a.x, a.y))
  {
    hide Build;
    hide Linearized;
    hide LastOff;
    ValuesMean(image, deviceId, a, ptrs, rd, table, from, to, tags, offs);
    IndexBuilt(image, a, ptrs, rd, table, from, to);
    PackedMeaning(rd.entries, tags, offs);
    hide Packed;
    assert rd.m[32] == offs[b];
    Published(image, a, ptrs, rd, table, from, to, offs[b]);
  }

  /** The accepted pass, published as a whole. */
  lemma Published(image: Image, a: Arch, ptrs: Pointers, rd: Reading, table: seq<Word>, from: nat, to: nat, off: nat)
    requires Linearized(image, a, ptrs, rd, table, from, to) && rd.m[32] == off != 0xffff
    requires var beat := Noc(ptrs.data + 4 * off, a.x, a.y);
             forall g: nat :: image(g + 1, beat) == (image(g, beat) + 1) % 0x1_0000_0000
    requires rd.pass.last - rd.pass.first < 0x1_0000_0000
    ensures |table| == 69 && forall tag :: 0 <= tag < 69 && rd.m[tag] != 0xffff ==>
              table[tag] == image(rd.pass.first, Noc(ptrs.data + 4 * rd.m[tag], a.x, a.y))
  {
    hide Build;
    hide Complete;
    var beat := Noc(ptrs.data + 4 * off, a.x, a.y);
    assert beat == ValueAt(a, ptrs.data, rd.m[32]);
    forall g: nat ensures image(g + 1, beat) == (image(g, beat) + 1) % U32_MOD {
    }
    assert Beats(image, beat);
    assert PublishedAt(image, a, ptrs.data, rd.m, table, rd.pass.first);
  }

  lemma IndexBuilt(image: Image, a: Arch, ptrs: Pointers, rd: Reading, table: seq<Word>, from: nat, to: nat)
    requires Linearized(image, a, ptrs, rd, table, from, to)
    ensures Build(rd.entries) == Some(rd.m)
  {
    hide Build;
  }
}
