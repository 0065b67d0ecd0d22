/** Discovering devices: one bounded pass over the device directory, and the
    binding's loop that grows its buffer until a pass fits. */
module Scan {
  import opened Errors
  import opened Text

  const INITIAL_CAP := 32

  /** A directory entry: whether it is a character device, and its name. */
  datatype Entry = Entry(charDevice: bool, name: string)

  /** `strtoul` of a whole name: blanks, a sign, then only digits. Only the
      empty name is accepted without a digit. */
  function WholeNumber(name: string): Option<nat> {
    match ScanDec(name)
    case None => if name == "" then Some(0) else None
    case Some((v, rest)) => if rest == "" then Some(v) else None
  }

  /** A device's own number names it. */
  lemma NumberNamesDevice(id: Word)
    ensures DeviceOf(Entry(true, Show(id, 10))) == Some(id)
  {
    hide Show;
    hide Value;
    hide ScanDec;
    var name := Show(id, 10);
    ScanDecDigits(name, "");
    assert name + "" == name;
  }

  /** The device an entry names, if it names one. */
  function DeviceOf(e: Entry): Option<Word> {
    if !e.charDevice || WholeNumber(e.name).None? then None else Some(WholeNumber(e.name).value % U32_MOD)
  }

  /** Exactly which entries name a device: character devices with an empty name,
      which names device 0, or a decimal number that is all of the name. */
  lemma NamesDevice(e: Entry, id: Word)
    ensures DeviceOf(e) == Some(id) <==>
            e.charDevice && ((e.name == "" && id == 0) || exists v: nat :: Decimal(e.name, v, "") && id == v % U32_MOD)
  {
    hide ScanDec;
    hide Decimal;
    NoNumber();
    forall v: nat ensures ScanDec(e.name) == Some((v, "")) <==> Decimal(e.name, v, "") {
      DecimalLanguage(e.name, v, "");
    }
    if DeviceOf(e) == Some(id) && e.name != "" {
      assert Decimal(e.name, ScanDec(e.name).value.0, "");
    }
  }

  lemma NoNumber()
    ensures ScanDec("").None?
  {
  }

  /** The devices a directory lists, in order. */
  function Listed(dir: seq<Entry>): (ids: seq<Word>)
    ensures |ids| <= |dir|
  {
    if dir == [] then [] else
      Listed(dir[..|dir| - 1]) + match DeviceOf(dir[|dir| - 1])
                                 case None => []
                                 case Some(id) => [id]
  }

  lemma ListedNext(dir: seq<Entry>, n: nat)
    requires n < |dir|
    ensures Listed(dir[..n + 1]) == Listed(dir[..n]) + match DeviceOf(dir[n])
                                                       case None => []
                                                       case Some(id) => [id]
  {
    assert dir[..n + 1][..n] == dir[..n];
  }

  /** A memory cell that may not have been written yet. */
  datatype Cell = Uninit | Init(id: Word)

  /** One pass: `None` when the directory cannot be opened for another reason
      than its absence. */
  datatype Directory = Missing | Unreadable(cause: Errno) | Entries(dir: seq<Entry>)

  function Seen(d: Directory): seq<Word> {
    if d.Entries? then Listed(d.dir) else []
  }

  function Min(a: nat, b: nat): nat {
    if a < b then a else b
  }

  /** The buffer holds as many of `ids` as fit in `cap`; the rest is as before. */
  predicate Stored(cells: seq<Cell>, was: seq<Cell>, ids: seq<Word>, cap: nat) {
    |cells| == |was| && forall i :: 0 <= i < |cells| ==> cells[i] == if i < Min(|ids|, cap) then Init(ids[i]) else was[i]
  }

  lemma StoredNext(cells: seq<Cell>, was: seq<Cell>, ids: seq<Word>, cap: nat, id: Word)
    requires Stored(cells, was, ids, cap) && cap <= |cells|
    ensures Stored(if |ids| < cap then cells[|ids| := Init(id)] else cells, was, ids + [id], cap)
  {
  }

  /** Fills the buffer as far as it goes and counts every device. */
  method DevScan(th: Thread, d: Directory, cap: nat, buf: array<Cell>) returns (count: int)
    requires cap <= buf.Length
    modifies th, buf
    ensures d.Unreadable? <==> count < 0
    ensures d.Unreadable? ==> th.errno == d.cause && buf[..] == old(buf[..])
    ensures !d.Unreadable? ==> count == |Seen(d)| && Stored(buf[..], old(buf[..]), Seen(d), cap)
  {
    match d {
      case Missing => return 0;
      case Unreadable(cause) =>
        th.errno := cause;
        return -1;
      case Entries(dir) =>
        hide WholeNumber;
        hide Listed;
        hide ScanDec;
        assert Stored(buf[..], old(buf[..]), [], cap);
        hide Stored;
        assert Listed(dir[..0]) == [];
        var n := 0;
        count := 0;
        while n < |dir|
          invariant 0 <= n <= |dir| && count == |Listed(dir[..n])|
          invariant Stored(buf[..], old(buf[..]), Listed(dir[..n]), cap)
        {
          var entry := dir[n];
          ListedNext(dir, n);
          n := n + 1;
          if !entry.charDevice {
            continue;
          }
          var num := WholeNumber(entry.name);
          if num.None? {
            continue;
          }
          StoredNext(buf[..], old(buf[..]), Listed(dir[..n - 1]), cap, num.value % U32_MOD);
          if count < cap {
            buf[count] := Init(num.value % U32_MOD);
          }
          count := count + 1;
        }
        assert dir[..n] == dir;
    }
  }

  /** The room the i-th pass has: 32 cells, then twice what overflowed. */
  function Cap(passes: nat -> Directory, i: nat): nat {
    if i == 0 then INITIAL_CAP else 2 * |Seen(passes(i - 1))|
  }

  /** Pass i was read but did not fit. */
  predicate Overflows(passes: nat -> Directory, i: nat) {
    !passes(i).Unreadable? && |Seen(passes(i))| > Cap(passes, i)
  }

  function Pow2(n: nat): (p: nat)
    ensures p > 0
  {
    if n == 0 then 1 else 2 * Pow2(n - 1)
  }

  /** The room doubles with every retry, so after k of them some pass listed
      more than 32 * 2^(k-1) devices. */
  lemma {:induction false} RoomDoubles(passes: nat -> Directory, k: nat)
    requires forall i :: 0 <= i < k ==> Overflows(passes, i)
    ensures Cap(passes, k) >= 32 * Pow2(k)
    ensures k > 0 ==> 32 * Pow2(k - 1) < |Seen(passes(k - 1))|
  {
    hide Seen;
    if k > 0 {
      RoomDoubles(passes, k - 1);
      assert Overflows(passes, k - 1);
    }
  }

  /** Scans until everything fits. Each pass may find a different directory;
      `most` bounds what any of them lists, and `retries` counts the passes
      thrown away. */
  method ScanAll(th: Thread, passes: nat -> Directory, ghost most: nat)
    returns (ids: Result<seq<Word>>, ghost retries: nat)
    requires forall i :: |Seen(passes(i))| <= most
    modifies th
    ensures forall i :: 0 <= i < retries ==> Overflows(passes, i)
    ensures !Overflows(passes, retries)
    ensures ids == if passes(retries).Unreadable? then Err(passes(retries).cause) else Ok(Seen(passes(retries)))
    ensures retries > 0 ==> 32 * Pow2(retries - 1) < most
  {
    hide Listed;
    hide Pow2;
    var cap, pass := INITIAL_CAP, 0;
    while true
      invariant cap == Cap(passes, pass) && INITIAL_CAP <= cap <= 2 * most + INITIAL_CAP
      invariant forall i :: 0 <= i < pass ==> Overflows(passes, i)
      decreases 2 * most + INITIAL_CAP - cap
    {
      retries := pass;
      RoomDoubles(passes, pass);
      // Reserving keeps no contents: the vector's length is still zero.
      var buf := new Cell[cap](_ => Uninit);
      var found := DevScan(th, passes(pass), cap, buf);
      if found < 0 {
        return Err(th.errno), retries;
      }
      if found <= cap {
        var taken := Taken(buf, found);
        assert taken == Seen(passes(pass));
        return Ok(taken), retries;
      }
      cap := found * 2;
      pass := pass + 1;
    }
  }

  /** The vector once its length is set: every element was initialised. */
  function Taken(buf: array<Cell>, len: nat): (ids: seq<Word>)
    requires len <= buf.Length && forall i :: 0 <= i < len ==> buf[i].Init?
    reads buf
    ensures |ids| == len && forall i :: 0 <= i < len ==> buf[i] == Init(ids[i])
  {
    seq(len, i requires 0 <= i < len && buf[i].Init? reads buf => buf[i].id)
  }
}
