/** The undo log of the Limine installer (limine/limine.c) as values: what writing and replaying
    do to a disk image, and how a log is kept in a file. */
module UndoLog {
  import opened Wrappers

  newtype Byte = b: int | 0 <= b < 256

  /** One record of uninstall_data: the bytes that stood at loc before a write. */
  datatype Entry = Entry(loc: nat, data: seq<Byte>) {
    predicate Covers(i: int)
    {
      loc <= i < loc + |data|
    }
  }

  /** The image with data written at loc; what lies past the end is lost. */
  ghost function Overwrite(image: seq<Byte>, loc: nat, data: seq<Byte>): (r: seq<Byte>)
    ensures |r| == |image|
    ensures forall i | 0 <= i < |image| :: r[i] == if loc <= i < loc + |data| then data[i - loc] else image[i]
  {
    seq(|image|, i requires 0 <= i < |image| => if loc <= i < loc + |data| then data[i - loc] else image[i])
  }

  /** Writing a buffer piece by piece. */
  lemma OverwriteAppend(image: seq<Byte>, loc: nat, data: seq<Byte>, p: nat, q: nat)
    requires p <= q <= |data|
    ensures Overwrite(Overwrite(image, loc, data[..p]), loc + p, data[p..q]) == Overwrite(image, loc, data[..q])
  {
    var l, r := Overwrite(Overwrite(image, loc, data[..p]), loc + p, data[p..q]), Overwrite(image, loc, data[..q]);
    forall i | 0 <= i < |image| ensures l[i] == r[i] {
      if loc + p <= i < loc + q { assert data[p..q][i - (loc + p)] == data[..q][i - loc]; }
    }
  }

  lemma OverwritePastEnd(image: seq<Byte>, loc: nat, data: seq<Byte>, p: nat)
    requires p <= |data| && |image| <= loc + p
    ensures Overwrite(image, loc, data[..p]) == Overwrite(image, loc, data)
  {
  }

  /** Writes the entries back, first to last. */
  ghost function Replay(image: seq<Byte>, log: seq<Entry>): (r: seq<Byte>)
    ensures |r| == |image|
    decreases |log|
  {
    if log == [] then image
    else Replay(Overwrite(image, log[0].loc, log[0].data), log[1..])
  }

  lemma {:induction false} ReplayLast(image: seq<Byte>, log: seq<Entry>, e: Entry)
    ensures Replay(image, log + [e]) == Overwrite(Replay(image, log), e.loc, e.data)
    decreases |log|
  {
    if log == [] {
      assert (log + [e])[1..] == [];
    } else {
      assert (log + [e])[1..] == log[1..] + [e];
      ReplayLast(Overwrite(image, log[0].loc, log[0].data), log[1..], e);
    }
  }

  lemma OverwriteTwice(image: seq<Byte>, loc: nat, data: seq<Byte>)
    ensures Overwrite(Overwrite(image, loc, data), loc, data) == Overwrite(image, loc, data)
  {
  }

  ghost predicate Covered(log: seq<Entry>, i: int)
  {
    exists k | 0 <= k < |log| :: log[k].Covers(i)
  }

  /** The image is the original wherever no logged write went. */
  ghost predicate AgreesOff(origin: seq<Byte>, image: seq<Byte>, log: seq<Entry>)
  {
    && |image| == |origin|
    && forall i | 0 <= i < |origin| && !Covered(log, i) :: image[i] == origin[i]
  }

  /** The first entry to cover a byte holds its original value. */
  ghost predicate Sound(origin: seq<Byte>, log: seq<Entry>)
  {
    forall k, i {:trigger log[k].Covers(i)} | 0 <= k < |log| && log[k].Covers(i) && !Covered(log[..k], i) ::
      i < |origin| ==> log[k].data[i - log[k].loc] == origin[i]
  }

  ghost function Reversed<T>(s: seq<T>): (r: seq<T>)
    ensures |r| == |s| && forall i | 0 <= i < |s| :: r[i] == s[|s| - 1 - i]
  {
    seq(|s|, i requires 0 <= i < |s| => s[|s| - 1 - i])
  }

  lemma CoveredSplit(log: seq<Entry>, i: int)
    requires log != []
    ensures var k := |log| - 1; Covered(log, i) <==> Covered(log[..k], i) || log[k].Covers(i)
  {
    var k := |log| - 1;
    if Covered(log, i) {
      var j :| 0 <= j < |log| && log[j].Covers(i);
      if j < k { assert log[..k][j].Covers(i); }
    }
    if Covered(log[..k], i) {
      var j :| 0 <= j < k && log[..k][j].Covers(i);
      assert log[j].Covers(i);
    }
  }

  lemma SoundPrefix(origin: seq<Byte>, log: seq<Entry>)
    requires Sound(origin, log) && log != []
    ensures Sound(origin, log[..|log| - 1])
  {
    var log' := log[..|log| - 1];
    forall k, i | 0 <= k < |log'| && log'[k].Covers(i) && !Covered(log'[..k], i) && i < |origin|
      ensures log'[k].data[i - log'[k].loc] == origin[i]
    {
      assert log'[..k] == log[..k];
      assert log[k].Covers(i);
    }
  }

  /** Replaying the reversed log restores the original from any image that differs from it only
      where logged writes went, whatever reached the device and in whatever state it was left. */
  lemma {:induction false} RollbackRestores(origin: seq<Byte>, image: seq<Byte>, log: seq<Entry>)
    requires Sound(origin, log) && AgreesOff(origin, image, log)
    ensures Replay(image, Reversed(log)) == origin
    decreases |log|
  {
    if log == [] {
      assert Reversed(log) == [];
      forall i | 0 <= i < |origin| ensures image[i] == origin[i] { assert !Covered(log, i); }
      assert image == origin;
    } else {
      var k := |log| - 1;
      var image' := Overwrite(image, log[k].loc, log[k].data);
      assert Reversed(log)[0] == log[k] && Reversed(log)[1..] == Reversed(log[..k]);
      SoundPrefix(origin, log);
      forall i | 0 <= i < |origin| && !Covered(log[..k], i) ensures image'[i] == origin[i] {
        CoveredSplit(log, i);
      }
      RollbackRestores(origin, image', log[..k]);
    }
  }

  lemma {:induction false} ReplayUncovered(image: seq<Byte>, log: seq<Entry>, i: nat)
    requires i < |image| && !Covered(log, i)
    ensures Replay(image, log)[i] == image[i]
    decreases |log|
  {
    if log != [] {
      assert !log[0].Covers(i);
      forall k | 0 <= k < |log[1..]| ensures !log[1..][k].Covers(i) { assert log[1..][k] == log[k + 1]; }
      ReplayUncovered(Overwrite(image, log[0].loc, log[0].data), log[1..], i);
    }
  }

  /** The exact condition: rollback restores the original if and only if the image differs from
      it nowhere off the logged writes.  A write that a device fault interrupts after part of it
      reached the device is not in the log, and is what this condition shuts out. */
  lemma RollbackRestoresExactly(origin: seq<Byte>, image: seq<Byte>, log: seq<Entry>)
    requires Sound(origin, log) && |image| == |origin|
    ensures Replay(image, Reversed(log)) == origin <==> AgreesOff(origin, image, log)
  {
    if AgreesOff(origin, image, log) {
      RollbackRestores(origin, image, log);
    } else {
      var i :| 0 <= i < |origin| && !Covered(log, i) && image[i] != origin[i];
      forall k | 0 <= k < |log| ensures !Reversed(log)[k].Covers(i) {
        assert Reversed(log)[k] == log[|log| - 1 - k];
      }
      ReplayUncovered(image, Reversed(log), i);
    }
  }

  /** Logging the bytes about to be overwritten keeps the log sound. */
  lemma LogWrite(origin: seq<Byte>, image: seq<Byte>, log: seq<Entry>, loc: nat, data: seq<Byte>)
    requires Sound(origin, log) && AgreesOff(origin, image, log) && loc + |data| <= |image|
    ensures Sound(origin, log + [Entry(loc, image[loc..loc + |data|])])
    ensures AgreesOff(origin, Overwrite(image, loc, data), log + [Entry(loc, image[loc..loc + |data|])])
  {
    var e := Entry(loc, image[loc..loc + |data|]);
    var log' := log + [e];
    assert log'[..|log|] == log;
    forall k, i | 0 <= k < |log'| && log'[k].Covers(i) && !Covered(log'[..k], i) && i < |origin|
      ensures log'[k].data[i - log'[k].loc] == origin[i]
    {
      if k < |log| {
        assert log'[..k] == log[..k];
        assert log[k].Covers(i);
      }
    }
    WiderLog(origin, image, log, e);
    forall i | 0 <= i < |origin| && !Covered(log', i) ensures Overwrite(image, loc, data)[i] == origin[i] {
      CoveredSplit(log', i);
    }
  }

  lemma WiderLog(origin: seq<Byte>, image: seq<Byte>, log: seq<Entry>, e: Entry)
    requires AgreesOff(origin, image, log)
    ensures AgreesOff(origin, image, log + [e])
  {
    var log' := log + [e];
    assert log'[..|log|] == log;
    forall i | 0 <= i < |origin| && !Covered(log', i) ensures image[i] == origin[i] {
      CoveredSplit(log', i);
    }
  }

  // ---------- the uninstall data file ----------

  /** The k low bytes of n, least significant first, as fwrite stores a uint64_t. */
  function Le(n: nat, k: nat): (r: seq<Byte>)
    ensures |r| == k
  {
    if k == 0 then [] else [(n % 256) as Byte] + Le(n / 256, k - 1)
  }

  function FromLe(s: seq<Byte>): nat
  {
    if s == [] then 0 else s[0] as int + 256 * FromLe(s[1..])
  }

  function Limit(k: nat): (r: nat)
    ensures r >= 1
  {
    if k == 0 then 1 else 256 * Limit(k - 1)
  }

  lemma {:induction false} LeRoundTrip(n: nat, k: nat)
    requires n < Limit(k)
    ensures FromLe(Le(n, k)) == n
  {
    if k > 0 {
      LeRoundTrip(n / 256, k - 1);
      assert Le(n, k)[1..] == Le(n / 256, k - 1);
    }
  }

  /** What fits in the uint64_t fields of a record. */
  const TWO64: nat := 0x1_0000_0000_0000_0000

  lemma LimitIs64Bits()
    ensures Limit(8) == TWO64
  {
    assert Limit(4) == 0x1_0000_0000;
  }

  predicate Fits(e: Entry)
  {
    e.loc < TWO64 && |e.data| < TWO64
  }

  function EncodeEntry(e: Entry): seq<Byte>
  {
    Le(e.loc, 8) + Le(|e.data|, 8) + e.data
  }

  function EncodeEntries(log: seq<Entry>): seq<Byte>
  {
    if log == [] then [] else EncodeEntry(log[0]) + EncodeEntries(log[1..])
  }

  function Encode(log: seq<Entry>): seq<Byte>
  {
    Le(|log|, 8) + EncodeEntries(log)
  }

  /** One record from the front of the file.  fread of zero bytes reports no item read, so an
      empty record is an error. */
  function DecodeEntry(file: seq<Byte>): (r: Option<(Entry, seq<Byte>)>)
    ensures r.Some? ==> |r.value.1| < |file|
  {
    if |file| < 16 then None
    else
      var loc, count := FromLe(file[..8]), FromLe(file[8..16]);
      if count == 0 || |file| < 16 + count then None
      else Some((Entry(loc, file[16..16 + count]), file[16 + count..]))
  }

  function DecodeEntries(file: seq<Byte>, n: nat): Option<seq<Entry>>
    decreases n
  {
    if n == 0 then Some([])
    else
      var first := DecodeEntry(file);
      if first.None? then None
      else
        var rest := DecodeEntries(first.value.1, n - 1);
        if rest.None? then None else Some([first.value.0] + rest.value)
  }

  function Decode(file: seq<Byte>): Option<seq<Entry>>
  {
    if |file| < 8 then None else DecodeEntries(file[8..], FromLe(file[..8]))
  }

  lemma EntryRoundTrip(e: Entry, tail: seq<Byte>)
    requires Fits(e)
    ensures DecodeEntry(EncodeEntry(e) + tail) == if e.data == [] then None else Some((e, tail))
  {
    hide Limit, Le, FromLe;
    var file := EncodeEntry(e) + tail;
    LimitIs64Bits();
    LeRoundTrip(e.loc, 8);
    LeRoundTrip(|e.data|, 8);
    assert file[..8] == Le(e.loc, 8) && file[8..16] == Le(|e.data|, 8);
    if e.data != [] {
      assert file[16..16 + |e.data|] == e.data && file[16 + |e.data|..] == tail;
    }
  }

  lemma {:induction false} EntriesRoundTrip(log: seq<Entry>, tail: seq<Byte>)
    requires forall i | 0 <= i < |log| :: Fits(log[i])
    ensures DecodeEntries(EncodeEntries(log) + tail, |log|)
         == if forall i | 0 <= i < |log| :: log[i].data != [] then Some(log) else None
  {
    hide EncodeEntry, DecodeEntry, Fits;
    if log != [] {
      var rest := EncodeEntries(log[1..]) + tail;
      assert EncodeEntries(log) + tail == EncodeEntry(log[0]) + rest;
      EntryRoundTrip(log[0], rest);
      EntriesRoundTrip(log[1..], tail);
      if log[0].data != [] && DecodeEntries(rest, |log| - 1).Some? {
        assert [log[0]] + log[1..] == log;
        forall i | 0 <= i < |log| ensures log[i].data != [] {
          assert i > 0 ==> log[i] == log[1..][i - 1];
        }
      }
      if forall i | 0 <= i < |log| :: log[i].data != [] {
        assert forall i | 0 <= i < |log[1..]| :: log[1..][i].data == log[i + 1].data;
      }
    }
  }

  /** A stored log comes back exactly when none of its records is empty. */
  lemma FileRoundTrip(log: seq<Entry>)
    requires |log| < TWO64 && forall i | 0 <= i < |log| :: Fits(log[i])
    ensures Decode(Encode(log)) == if forall i | 0 <= i < |log| :: log[i].data != [] then Some(log) else None
  {
    hide Fits, EncodeEntries, DecodeEntries, Limit;
    var file := Encode(log);
    LimitIs64Bits();
    LeRoundTrip(|log|, 8);
    assert file[..8] == Le(|log|, 8) && file[8..] == EncodeEntries(log) + [];
    EntriesRoundTrip(log, []);
  }

  /** Where the bytes of the file are: the number of records, then location, length and data of each. */
  lemma {:induction false} FileLayout(log: seq<Entry>, i: nat) returns (at: nat)
    requires i < |log|
    ensures 8 <= at && at + 16 + |log[i].data| <= |Encode(log)|
    ensures i == 0 ==> at == 8
    ensures IsLe(Encode(log), 0, |log|) && IsLe(Encode(log), at, log[i].loc) && IsLe(Encode(log), at + 8, |log[i].data|)
    ensures Encode(log)[at + 16..at + 16 + |log[i].data|] == log[i].data
  {
    hide Le, IsLe, EncodeEntries;
    var skip := EntryAt(log, i);
    at := 8 + skip;
    var file, entries := Encode(log), EncodeEntries(log);
    assert file[..8] == Le(|log|, 8) && file[8..] == entries;
    var e := EncodeEntry(log[i]);
    assert file[at..at + 8] == e[..8] && file[at + 8..at + 16] == e[8..16];
    assert file[at + 16..at + 16 + |log[i].data|] == e[16..];
    LeBytes(file, 0, |log|);
    LeBytes(file, at, log[i].loc);
    LeBytes(file, at + 8, |log[i].data|);
  }

  /** The eight bytes from `at` on are n, least significant first. */
  predicate IsLe(file: seq<Byte>, at: nat, n: nat)
    requires at + 8 <= |file|
  {
    forall j | 0 <= j < 8 :: file[at + j] as nat == n / Limit(j) % 256
  }

  lemma LeBytes(file: seq<Byte>, at: nat, n: nat)
    requires at + 8 <= |file| && file[at..at + 8] == Le(n, 8)
    ensures IsLe(file, at, n)
  {
    hide Le;
    forall j | 0 <= j < 8 ensures file[at + j] as nat == n / Limit(j) % 256 {
      assert file[at + j] == file[at..at + 8][j];
      LeByte(n, 8, j);
    }
  }

  lemma {:induction false} LeByte(n: nat, k: nat, j: nat)
    requires j < k
    ensures Le(n, k)[j] as nat == n / Limit(j) % 256
    decreases k
  {
    if j > 0 {
      LeByte(n / 256, k - 1, j - 1);
      assert Le(n, k)[j] == Le(n / 256, k - 1)[j - 1];
      DivTwice(n, Limit(j - 1));
    }
  }

  lemma DivTwice(n: nat, d: nat)
    requires d > 0
    ensures n / 256 / d == n / (256 * d)
  {
    var q, r := n / 256 / d, n / 256 % d;
    assert n / 256 == q * d + r;
    assert n == q * (256 * d) + (256 * r + n % 256);
    assert 256 * r + n % 256 < 256 * d;
    DivUnique(n, 256 * d, q, 256 * r + n % 256);
  }

  lemma DivUnique(n: nat, d: nat, q: nat, r: nat)
    requires d > 0 && r < d && n == q * d + r
    ensures n / d == q
  {
    var p := n / d;
    assert n == p * d + n % d;
    assert p < q ==> (p + 1) * d <= q * d;
    assert p > q ==> (q + 1) * d <= p * d;
  }

  /** Where record i starts behind the count. */
  lemma {:induction false} EntryAt(log: seq<Entry>, i: nat) returns (at: nat)
    requires i < |log|
    ensures at + |EncodeEntry(log[i])| <= |EncodeEntries(log)| && (i == 0 ==> at == 0)
    ensures EncodeEntries(log)[at..at + |EncodeEntry(log[i])|] == EncodeEntry(log[i])
    decreases i
  {
    hide EncodeEntry;
    if i == 0 {
      at := 0;
    } else {
      var skip := EntryAt(log[1..], i - 1);
      at := |EncodeEntry(log[0])| + skip;
      var n := |EncodeEntry(log[i])|;
      assert EncodeEntries(log)[at..at + n] == EncodeEntries(log[1..])[skip..skip + n];
    }
  }

  lemma {:induction false} EncodeEntriesLast(log: seq<Entry>, e: Entry)
    ensures EncodeEntries(log + [e]) == EncodeEntries(log) + EncodeEntry(e)
  {
    hide EncodeEntry;
    if log == [] {
      assert (log + [e])[1..] == [];
    } else {
      assert (log + [e])[1..] == log[1..] + [e];
      EncodeEntriesLast(log[1..], e);
    }
  }

  /** The installed system can be rolled back from the stored file as well. */
  lemma StoredLogRestores(origin: seq<Byte>, image: seq<Byte>, log: seq<Entry>)
    requires Sound(origin, log) && AgreesOff(origin, image, log)
    requires |log| < TWO64 && forall i | 0 <= i < |log| :: Fits(log[i]) && log[i].data != []
    ensures Decode(Encode(Reversed(log))).Some?
    ensures Replay(image, Decode(Encode(Reversed(log))).value) == origin
  {
    hide Limit, Encode, Decode, Sound, AgreesOff, Fits;
    FileRoundTrip(Reversed(log));
    RollbackRestores(origin, image, log);
  }
}
