/** The tag-to-offset index that a snapshot builds from the firmware's tag
    table, against what the table says. */
module TagIndex {
  import opened Errors

  const TELEMETRY_LEN := 69
  const HEARTBEAT := 32
  const ENTRY_CAP := 128
  const UNSET := 0xffff

  function Tag(entry: Word): nat {
    entry % 0x1_0000
  }

  function Off(entry: Word): (off: nat)
    ensures off <= UNSET
  {
    entry / 0x1_0000
  }

  /** Tags outside the table are skipped, and tag 0 is reserved. */
  predicate Known(tag: nat) {
    0 < tag < TELEMETRY_LEN
  }

  type Index = m: seq<nat> | |m| == TELEMETRY_LEN && forall i :: 0 <= i < |m| ==> m[i] <= UNSET
    witness seq(TELEMETRY_LEN, _ => UNSET)

  function Blank(): Index {
    seq(TELEMETRY_LEN, _ => UNSET)
  }

  /** One entry taken in, or `None` when its tag is already set. */
  function Enter(m: Index, entry: Word): Option<Index> {
    if !Known(Tag(entry)) then Some(m)
    else if m[Tag(entry)] != UNSET then None
    else Some(m[Tag(entry) := Off(entry)])
  }

  function Build(entries: seq<Word>): Option<Index> {
    if entries == [] then Some(Blank()) else
      var m := Build(entries[..|entries| - 1]);
      if m.None? then None else Enter(m.value, entries[|entries| - 1])
  }

  /** Taking the table in entry by entry. */
  lemma BuildStep(entries: seq<Word>, entry: Word)
    ensures Build([]) == Some(Blank())
    ensures Build(entries + [entry]) == if Build(entries).None? then None else Enter(Build(entries).value, entry)
  {
  }

  /** Entries i and j clash: one known tag, already set by i. */
  ghost predicate Clash(entries: seq<Word>, i: nat, j: nat) {
    i < j < |entries| && Tag(entries[i]) == Tag(entries[j]) && Known(Tag(entries[i])) && Off(entries[i]) != UNSET
  }

  /** The offset the last entry for `tag` gives, unset if there is none. */
  function LastOff(entries: seq<Word>, tag: nat): (off: nat)
    ensures off <= UNSET
  {
    if entries == [] then UNSET
    else if Tag(entries[|entries| - 1]) == tag then Off(entries[|entries| - 1])
    else LastOff(entries[..|entries| - 1], tag)
  }

  /** `LastOff` is what its name says. */
  lemma {:induction false} LastOffMeaning(entries: seq<Word>, tag: nat, k: nat)
    requires k < |entries| && Tag(entries[k]) == tag
    requires forall j :: k < j < |entries| ==> Tag(entries[j]) != tag
    ensures LastOff(entries, tag) == Off(entries[k])
  {
    if k < |entries| - 1 {
      LastOffMeaning(entries[..|entries| - 1], tag, k);
    }
  }

  lemma {:induction false} LastOffSet(entries: seq<Word>, tag: nat)
    ensures LastOff(entries, tag) != UNSET ==>
              exists k :: 0 <= k < |entries| && Tag(entries[k]) == tag && Off(entries[k]) != UNSET
    ensures LastOff(entries, tag) == UNSET ==> forall k :: 0 <= k < |entries| && Tag(entries[k]) == tag ==>
              Off(entries[k]) == UNSET || exists j :: k < j < |entries| && Tag(entries[j]) == tag
  {
    if entries != [] {
      var n := |entries| - 1;
      LastOffSet(entries[..n], tag);
      if Tag(entries[n]) != tag {
        if LastOff(entries, tag) != UNSET {
          var k :| 0 <= k < n && Tag(entries[..n][k]) == tag && Off(entries[..n][k]) != UNSET;
          assert Tag(entries[k]) == tag;
        } else {
          forall k | 0 <= k < |entries| && Tag(entries[k]) == tag
            ensures Off(entries[k]) == UNSET || exists j :: k < j < |entries| && Tag(entries[j]) == tag
          {
            assert entries[..n][k] == entries[k];
            if Off(entries[k]) != UNSET {
              var j :| k < j < n && Tag(entries[..n][j]) == tag;
              assert Tag(entries[j]) == tag;
            }
          }
        }
      }
    }
  }

  /** The index is refused exactly when two entries clash, and otherwise gives
      every known tag its last entry's offset. An entry whose offset is the
      sentinel reads as no entry at all, so a later one may follow it. */
  lemma {:induction false} IndexMeaning(entries: seq<Word>)
    ensures Build(entries).None? <==> exists i, j :: Clash(entries, i, j)
    ensures Build(entries).Some? ==> forall tag :: 0 <= tag < TELEMETRY_LEN ==>
              Build(entries).value[tag] == if Known(tag) then LastOff(entries, tag) else UNSET
  {
    if entries != [] {
      var n := |entries| - 1;
      var init, last := entries[..n], entries[n];
      IndexMeaning(init);
      if i, j :| Clash(init, i, j) {
        assert Clash(entries, i, j);
      } else {
        assert Build(init).Some?;
        if Known(Tag(last)) && LastOff(init, Tag(last)) != UNSET {
          LastOffSet(init, Tag(last));
          var k :| 0 <= k < n && Tag(init[k]) == Tag(last) && Off(init[k]) != UNSET;
          assert Clash(entries, k, n);
        } else {
          NoNewClash(entries);
        }
      }
    }
  }

  /** Words with these tags in their lower and offsets in their upper halves. */
  ghost predicate Packed(words: seq<Word>, tags: seq<nat>, offs: seq<nat>) {
    && |tags| == |offs| == |words|
    && forall i :: 0 <= i < |words| ==> tags[i] < 0x1_0000 && words[i] == offs[i] * 0x1_0000 + tags[i]
  }

  lemma Halves(words: seq<Word>, tags: seq<nat>, offs: seq<nat>, i: nat)
    requires Packed(words, tags, offs) && i < |words|
    ensures Tag(words[i]) == tags[i] && Off(words[i]) == offs[i]
  {
  }

  /** The index on the packed words themselves: two entries for one of the tags
      1 to 68 are refused unless the earlier offset is 0xffff; otherwise each of
      these tags gets the offset of its last entry, and every tag without one
      none. */
  lemma PackedMeaning(words: seq<Word>, tags: seq<nat>, offs: seq<nat>)
    requires Packed(words, tags, offs)
    ensures Build(words).None? <==>
            exists i, j :: 0 <= i < j < |words| && tags[i] == tags[j] && 1 <= tags[i] <= 68 && offs[i] != 0xffff
    ensures Build(words).Some? ==> |Build(words).value| == 69
    ensures Build(words).Some? ==> forall i :: 0 <= i < |words| && 1 <= tags[i] <= 68 && tags[i] !in tags[i + 1..] ==>
              Build(words).value[tags[i]] == offs[i]
    ensures Build(words).Some? ==> forall tag :: 0 <= tag <= 68 && (tag == 0 || tag !in tags) ==>
              Build(words).value[tag] == 0xffff
  {
    hide Build;
    IndexMeaning(words);
    forall i | 0 <= i < |words| ensures Tag(words[i]) == tags[i] && Off(words[i]) == offs[i] {
      Halves(words, tags, offs, i);
    }
    if i, j :| 0 <= i < j < |words| && tags[i] == tags[j] && 1 <= tags[i] <= 68 && offs[i] != 0xffff {
      assert Clash(words, i, j);
    }
    if i: nat, j: nat :| Clash(words, i, j) {
      assert tags[i] == tags[j];
    }
    forall i | 0 <= i < |words| && 1 <= tags[i] <= 68 && tags[i] !in tags[i + 1..]
      ensures LastOff(words, tags[i]) == offs[i]
    {
      forall j | i < j < |words| ensures Tag(words[j]) != tags[i] {
        assert tags[i + 1..][j - i - 1] == tags[j];
      }
      LastOffMeaning(words, tags[i], i);
    }
    forall tag | 0 <= tag <= 68 && tag !in tags ensures LastOff(words, tag) == UNSET {
      LastOffSet(words, tag);
    }
  }

  lemma NoNewClash(entries: seq<Word>)
    requires entries != []
    requires var n := |entries| - 1;
             && (forall i, j :: !Clash(entries[..n], i, j))
             && (Known(Tag(entries[n])) ==> LastOff(entries[..n], Tag(entries[n])) == UNSET)
    ensures forall i, j :: !Clash(entries, i, j)
  {
    var n := |entries| - 1;
    var init, tag := entries[..n], Tag(entries[n]);
    forall i: nat, j: nat | Clash(entries, i, j) ensures false {
      if j < n {
        assert Clash(init, i, j);
      } else {
        LastOffSet(init, tag);
        assert Tag(init[i]) == tag && Off(init[i]) != UNSET;
        var l :| i < l < n && Tag(init[l]) == tag;
        assert Clash(init, i, l);
      }
    }
  }
}
