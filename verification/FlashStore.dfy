/** The CV store of the Rust decoder (application/src/store/mod.rs): a cache in memory that every
    change writes back to NOR flash. */
module FlashStore {
  import opened Wire

  const CV_SIZE := 1024
  const ERASE_SIZE := 4096

  datatype Error = InvalidAddress | Io

  // ---- the flash chip ----

  /** Erasing sets every bit. */
  function Erased(flash: seq<byte>, from: nat, to: nat): (r: seq<byte>)
    requires from <= to <= |flash|
    ensures |r| == |flash|
  {
    flash[..from] + seq(to - from, _ => 0xFF) + flash[to..]
  }

  function Cleared(x: byte, data: byte): byte {
    x & data
  }

  /** Programming can only clear bits. */
  function Programmed(flash: seq<byte>, from: nat, data: seq<byte>): (r: seq<byte>)
    requires from + |data| <= |flash|
    ensures |r| == |flash|
  {
    seq(|flash|, i requires 0 <= i < |flash| =>
      if from <= i < from + |data| then Cleared(flash[i], data[i - from]) else flash[i])
  }

  /** How an operation on the chip ends. A failed erase or program leaves anything in the erase
      range, given as a whole flash image of which only that range counts. */
  datatype Outcome = Done | EraseFails(image: seq<byte>) | ProgramFails(image: seq<byte>)

  function Damaged(flash: seq<byte>, from: nat, to: nat, image: seq<byte>): (r: seq<byte>)
    requires from <= to <= |flash|
    ensures |r| == |flash|
  {
    seq(|flash|, i requires 0 <= i < |flash| =>
      if from <= i < to && i < |image| then image[i] else flash[i])
  }

  // ---- the store ----

  datatype Store = Store(cache: seq<byte>, flash: seq<byte>, start: nat)

  predicate Valid(s: Store) {
    |s.cache| == CV_SIZE && s.start + ERASE_SIZE <= |s.flash|
  }

  /** The CV region of the flash equals the cache. */
  predicate Agrees(s: Store)
    requires Valid(s)
  {
    s.flash[s.start..s.start + CV_SIZE] == s.cache
  }

  /** Whether a write passes the bounds check; note that the last CV number is CV_SIZE. */
  predicate InBounds(address: nat, len: nat) {
    address != 0 && address + len - 1 <= CV_SIZE
  }

  /** Erase, then program the whole cache. */
  function AfterSync(s: Store, o: Outcome): (r: (Store, Result<(), Error>))
    requires Valid(s)
    ensures Valid(r.0)
  {
    var from, to := s.start, s.start + ERASE_SIZE;
    match o
    case EraseFails(image) => (s.(flash := Damaged(s.flash, from, to, image)), Err(Io))
    case ProgramFails(image) => (s.(flash := Damaged(Erased(s.flash, from, to), from, to, image)), Err(Io))
    case Done => (s.(flash := Programmed(Erased(s.flash, from, to), from, s.cache)), Ok(()))
  }

  /** Whether a write gets as far as the flash: without force it is skipped when the cache already
      holds the value. */
  predicate Syncs(s: Store, address: nat, value: seq<byte>, force: bool)
    requires Valid(s) && InBounds(address, |value|)
  {
    force || s.cache[address - 1..address - 1 + |value|] != value
  }

  function Patched(cache: seq<byte>, address: nat, value: seq<byte>): (r: seq<byte>)
    requires 1 <= address && address - 1 + |value| <= |cache|
    ensures |r| == |cache|
  {
    cache[..address - 1] + value + cache[address - 1 + |value|..]
  }

  function AfterWrite(s: Store, address: nat, value: seq<byte>, force: bool, o: Outcome)
    : (r: (Store, Result<(), Error>))
    requires Valid(s)
    ensures Valid(r.0)
  {
    if !InBounds(address, |value|) then (s, Err(InvalidAddress))
    else if !Syncs(s, address, value, force) then (s, Ok(()))
    else
      AfterSync(s.(cache := Patched(s.cache, address, value)), o)
  }

  function ReadByte(s: Store, address: nat): Result<byte, Error>
    requires Valid(s)
  {
    if 1 <= address <= CV_SIZE then Ok(s.cache[address - 1]) else Err(InvalidAddress)
  }

  function ReadBytes(s: Store, start: nat, len: nat): Result<seq<byte>, Error>
    requires Valid(s)
  {
    if 1 <= start && start - 1 + len <= CV_SIZE then Ok(s.cache[start - 1..start - 1 + len]) else Err(InvalidAddress)
  }

  /** What a store built anew from a flash image holds. */
  function Load(flash: seq<byte>, start: nat): Store
    requires start + ERASE_SIZE <= |flash|
  {
    Store(flash[start..start + CV_SIZE], flash, start)
  }

  /** The store as the program keeps it. */
  class Flash {
    const start: nat
    const flash: array<byte>
    const cache: array<byte>

    ghost function Model(): Store
      reads this, flash, cache
    {
      Store(cache[..], flash[..], start)
    }

    ghost predicate Usable()
      reads this, flash, cache
    {
      flash != cache && Valid(Model())
    }

    constructor (flash: array<byte>, start: nat)
      requires start + ERASE_SIZE <= flash.Length
      ensures Usable() && fresh(cache) && this.flash == flash && this.start == start
      ensures Model() == Load(flash[..], start)
    {
      this.start := start;
      this.flash := flash;
      cache := new byte[CV_SIZE](i requires 0 <= i < CV_SIZE reads flash => flash[start + i]);
      new;
      assert cache[..] == flash[start..start + CV_SIZE];
    }

    /** Reading the CVs from flash may fail. */
    static method New(flash: array<byte>, start: nat, readable: bool) returns (r: Result<Flash, Error>)
      requires start + ERASE_SIZE <= flash.Length
      ensures r.Ok? <==> readable
      ensures r.Ok? ==> r.value.Usable() && fresh(r.value) && r.value.flash == flash
      ensures r.Ok? ==> r.value.Model() == Load(flash[..], start)
      ensures r.Err? ==> r.error == Io
    {
      if !readable {
        return Err(Io);
      }
      var store := new Flash(flash, start);
      r := Ok(store);
    }

    method Damage(from: nat, to: nat, image: seq<byte>)
      requires from <= to <= flash.Length
      modifies flash
      ensures flash[..] == Damaged(old(flash[..]), from, to, image)
    {
      forall i | from <= i < to && i < |image| { flash[i] := image[i]; }
    }

    method BlockingErase(from: nat, to: nat, o: Outcome) returns (ok: bool)
      requires from <= to <= flash.Length
      modifies flash
      ensures ok == !o.EraseFails?
      ensures flash[..] == if o.EraseFails? then Damaged(old(flash[..]), from, to, o.image)
                           else Erased(old(flash[..]), from, to)
    {
      ok := !o.EraseFails?;
      if ok {
        forall i | from <= i < to { flash[i] := 0xFF; }
      } else {
        Damage(from, to, o.image);
      }
    }

    method Program(from: nat, data: seq<byte>)
      requires from + |data| <= flash.Length
      modifies flash
      ensures flash[..] == Programmed(old(flash[..]), from, data)
    {
      hide Cleared;
      forall i | from <= i < from + |data| { flash[i] := Cleared(flash[i], data[i - from]); }
    }

    method BlockingWrite(from: nat, to: nat, o: Outcome) returns (ok: bool)
      requires flash != cache && from + cache.Length <= to <= flash.Length
      modifies flash
      ensures ok == !o.ProgramFails?
      ensures flash[..] == if o.ProgramFails? then Damaged(old(flash[..]), from, to, o.image)
                           else Programmed(old(flash[..]), from, cache[..])
    {
      ok := !o.ProgramFails?;
      if ok {
        Program(from, cache[..]);
      } else {
        Damage(from, to, o.image);
      }
    }

    method SyncCvs(o: Outcome) returns (r: Result<(), Error>)
      requires Usable()
      modifies flash
      ensures Usable() && cache[..] == old(cache[..])
      ensures (Model(), r) == AfterSync(old(Model()), o)
    {
      var from, to := start, start + ERASE_SIZE;
      var ok := BlockingErase(from, to, o);
      if !ok {
        return Err(Io);
      }
      ok := BlockingWrite(from, to, o);
      if !ok {
        return Err(Io);
      }
      r := Ok(());
    }

    method WriteBytes(address: nat, value: seq<byte>, force: bool, o: Outcome) returns (r: Result<(), Error>)
      requires Usable()
      modifies flash, cache
      ensures Usable()
      ensures (Model(), r) == AfterWrite(old(Model()), address, value, force, o)
    {
      if address == 0 || address + |value| - 1 > cache.Length {
        return Err(InvalidAddress);
      }
      var startIdx := address - 1;
      if !force && cache[startIdx..startIdx + |value|] == value {
        return Ok(());
      }
      forall i | 0 <= i < |value| { cache[startIdx + i] := value[i]; }
      assert cache[..] == Patched(old(cache[..]), address, value);
      assert Model() == old(Model()).(cache := Patched(old(Model()).cache, address, value));
      r := SyncCvs(o);
    }
  }

  // ---- agreement ----

  lemma AllOnes(x: byte)
    ensures 0xFF & x == x
  {}

  lemma SyncRestores(s: Store)
    requires Valid(s)
    ensures var (s', r) := AfterSync(s, Done); Valid(s') && r.Ok? && Agrees(s') && s'.cache == s.cache
  {
    var from, to := s.start, s.start + ERASE_SIZE;
    var s' := AfterSync(s, Done).0;
    forall i | 0 <= i < CV_SIZE ensures s'.flash[from + i] == s.cache[i] {
      assert Erased(s.flash, from, to)[from + i] == 0xFF;
      AllOnes(s.cache[i]);
    }
  }

  /** After a write that returns Ok the flash agrees with the cache exactly when it did before or the
      write got as far as the flash; an error on the flash leaves nothing certain. */
  lemma WriteAgreesExactly(s: Store, address: nat, value: seq<byte>, force: bool, o: Outcome)
    requires Valid(s)
    ensures var (s', r) := AfterWrite(s, address, value, force, o);
      && Valid(s')
      && (r.Ok? ==> (Agrees(s') <==> Agrees(s) || Syncs(s, address, value, force)))
      && (r.Ok? && Syncs(s, address, value, force) ==> o.Done?)
  {
    if InBounds(address, |value|) && Syncs(s, address, value, force) && o.Done? {
      SyncRestores(s.(cache := Patched(s.cache, address, value)));
    }
  }

  lemma WriteKeepsAgreement(s: Store, address: nat, value: seq<byte>, force: bool)
    requires Valid(s) && Agrees(s)
    ensures Agrees(AfterWrite(s, address, value, force, Done).0)
  {
    WriteAgreesExactly(s, address, value, force, Done);
  }

  /** What a write does to what is read back and to the rest of the flash, whatever happens on the
      flash. */
  lemma WriteEffect(s: Store, address: nat, value: seq<byte>, force: bool, o: Outcome)
    requires Valid(s)
    ensures var (s', r) := AfterWrite(s, address, value, force, o);
      && Valid(s') && s'.start == s.start && |s'.flash| == |s.flash|
      && (!InBounds(address, |value|) ==> s' == s && r == Err(InvalidAddress))
      && (InBounds(address, |value|) ==> s'.cache == Patched(s.cache, address, value))
      && (forall i :: 0 <= i < |s.flash| && !(s.start <= i < s.start + ERASE_SIZE) ==> s'.flash[i] == s.flash[i])
  {
    if InBounds(address, |value|) && !Syncs(s, address, value, force) {
      assert s.cache == Patched(s.cache, address, s.cache[address - 1..address - 1 + |value|]);
    }
  }

  /** A byte written is what is read back, and every other CV keeps its value. */
  lemma ReadAfterWrite(s: Store, address: nat, value: seq<byte>, force: bool, o: Outcome, cv: nat)
    requires Valid(s) && InBounds(address, |value|)
    ensures var s' := AfterWrite(s, address, value, force, o).0;
      && Valid(s')
      && ReadByte(s', cv) ==
           if address <= cv < address + |value| then Ok(value[cv - address]) else ReadByte(s, cv)
  {
    hide AfterWrite;
    WriteEffect(s, address, value, force, o);
  }

  datatype Write = Write(address: nat, value: seq<byte>, force: bool, outcome: Outcome)

  function Run(s: Store, ws: seq<Write>): Store
    requires Valid(s)
    ensures Valid(Run(s, ws))
  {
    if ws == [] then s
    else
      var w := ws[|ws| - 1];
      AfterWrite(Run(s, ws[..|ws| - 1]), w.address, w.value, w.force, w.outcome).0
  }

  /** Without flash errors the flash agrees with the cache after every write, so the store can be
      built anew at any time with the same CVs; and no write, whatever fails, touches the flash
      outside the erase range. */
  lemma {:induction false} FlashRefinesCache(flash: seq<byte>, start: nat, ws: seq<Write>)
    requires start + ERASE_SIZE <= |flash|
    ensures Valid(Load(flash, start))
    ensures var s := Run(Load(flash, start), ws);
      && s.start == start && |s.flash| == |flash|
      && (forall i :: 0 <= i < |flash| && !(start <= i < start + ERASE_SIZE) ==> s.flash[i] == flash[i])
      && ((forall w :: w in ws ==> w.outcome.Done?) ==> Agrees(s) && Load(s.flash, start) == s)
  {
    if ws != [] {
      var init, w := ws[..|ws| - 1], ws[|ws| - 1];
      FlashRefinesCache(flash, start, init);
      WriteEffect(Run(Load(flash, start), init), w.address, w.value, w.force, w.outcome);
      WriteAgreesExactly(Run(Load(flash, start), init), w.address, w.value, w.force, w.outcome);
      assert forall v :: v in init ==> v in ws;
      assert w in ws;
    }
  }

  /** After an error anything goes, but the next write that completes a sync restores agreement. */
  lemma NextSyncRestores(flash: seq<byte>, start: nat, ws: seq<Write>, w: Write)
    requires start + ERASE_SIZE <= |flash| && w.outcome.Done? && InBounds(w.address, |w.value|)
    requires Syncs(Run(Load(flash, start), ws), w.address, w.value, w.force)
    ensures Agrees(Run(Load(flash, start), ws + [w]))
  {
    assert (ws + [w])[..|ws|] == ws;
    WriteAgreesExactly(Run(Load(flash, start), ws), w.address, w.value, w.force, w.outcome);
  }

  /** Repeating a failed write does not: the cache already holds the value, so the repetition is
      skipped, reports success and leaves the flash as the failure left it. */
  lemma RepeatedWriteIsSkipped(s: Store, address: nat, value: seq<byte>, failure: Outcome)
    requires Valid(s) && InBounds(address, |value|) && Syncs(s, address, value, false) && !failure.Done?
    ensures var (s1, r1) := AfterWrite(s, address, value, false, failure);
      && Valid(s1) && r1 == Err(Io)
      && AfterWrite(s1, address, value, false, Done) == (s1, Ok(()))
  {
    WriteEffect(s, address, value, false, failure);
    var s1 := AfterWrite(s, address, value, false, failure).0;
    assert s1.cache == Patched(s.cache, address, value);
    assert s1.cache[address - 1..address - 1 + |value|] == value;
  }

  /** What a write within bounds returns: an error exactly if it reaches a flash that fails. */
  lemma WriteReply(s: Store, address: nat, value: seq<byte>, force: bool, o: Outcome)
    requires Valid(s) && InBounds(address, |value|)
    ensures var r := AfterWrite(s, address, value, force, o).1;
      r == if Syncs(s, address, value, force) && !o.Done? then Err(Io) else Ok(())
  {
    hide Programmed, Erased, Damaged, Patched;
  }

  /** A forced write that succeeds makes flash and cache agree, whatever was before. */
  lemma ForcedWriteRestores(s: Store, address: nat, value: seq<byte>)
    requires Valid(s) && InBounds(address, |value|)
    ensures Agrees(AfterWrite(s, address, value, true, Done).0)
  {
    WriteAgreesExactly(s, address, value, true, Done);
    hide AfterWrite, Agrees;
  }

  /** Reading several bytes is reading each. */
  lemma ReadBytesIsEach(s: Store, start: nat, len: nat)
    requires Valid(s) && 1 <= start
    ensures match ReadBytes(s, start, len)
      case Ok(v) => |v| == len && forall i :: 0 <= i < len ==> ReadByte(s, start + i) == Ok(v[i])
      case Err(e) => e == InvalidAddress && CV_SIZE < start - 1 + len
  {}
}
