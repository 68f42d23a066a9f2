/**
 * The sensor register program of streamUSB.py: the ordered register table
 * `REGISTRY_UPDATES` and the exposure patch `set_exposure_config`.
 *
 * A Python dict is an insertion-ordered map: assigning an existing key
 * overwrites its value in place, assigning a new key appends it. A dict
 * literal with repeated keys is the left-to-right sequence of such
 * assignments, so a repeated address keeps its first position and its last
 * value. The table is modelled as a sequence of (address, value) pairs with
 * exactly that update rule.
 */
module Registers {
  import opened Common

  type Entry = (int, int)
  type Table = seq<Entry>

  /** No address occurs twice, the invariant every Python dict keeps. */
  predicate DistinctKeys(t: Table) {
    forall i, j :: 0 <= i < j < |t| ==> t[i].0 != t[j].0
  }

  predicate HasKey(t: Table, k: int) {
    exists i :: 0 <= i < |t| && t[i].0 == k
  }

  /** Position of the first entry with address `k`. */
  function IndexOf(t: Table, k: int): (r: Option<nat>)
    ensures r.None? <==> !HasKey(t, k)
    ensures r.Some? ==> r.value < |t| && t[r.value].0 == k
    ensures r.Some? ==> forall i :: 0 <= i < r.value ==> t[i].0 != k
  {
    if |t| == 0 then None
    else if t[0].0 == k then Some(0)
    else
      match IndexOf(t[1..], k)
      case None =>
        assert forall i :: 1 <= i < |t| ==> t[i].0 == t[1..][i - 1].0;
        None
      case Some(i) => Some(i + 1)
  }

  /** `d[k]`: the value stored at address `k`, if any. */
  function Lookup(t: Table, k: int): Option<int> {
    match IndexOf(t, k)
    case None => None
    case Some(i) => Some(t[i].1)
  }

  /** `d[k] = v` on an insertion-ordered dict. */
  function Put(t: Table, k: int, v: int): (r: Table)
    ensures HasKey(t, k) ==> |r| == |t|
    ensures !HasKey(t, k) ==> r == t + [(k, v)]
    ensures forall i :: 0 <= i < |t| ==> r[i].0 == t[i].0
    ensures forall i :: 0 <= i < |t| && t[i].0 != k ==> r[i] == t[i]
    ensures forall j :: |t| <= j < |r| ==> r[j].0 == k
    ensures forall x :: HasKey(r, x) <==> HasKey(t, x) || x == k
    ensures DistinctKeys(t) ==> DistinctKeys(r) && Lookup(r, k) == Some(v)
  {
    match IndexOf(t, k)
    case None =>
      var r := t + [(k, v)];
      assert r[|t|].0 == k;
      assert forall i :: 0 <= i < |t| ==> r[i] == t[i];
      r
    case Some(i) =>
      var r := t[i := (k, v)];
      assert forall x :: HasKey(t, x) ==> HasKey(r, x) by {
        forall x | HasKey(t, x) ensures HasKey(r, x) {
          var j :| 0 <= j < |t| && t[j].0 == x;
          assert r[j].0 == x;
        }
      }
      r
  }

  /** A dict literal: its pairs assigned left to right into an empty dict. */
  function FromPairs(ps: seq<Entry>): (r: Table)
    ensures DistinctKeys(r)
  {
    if |ps| == 0 then [] else Put(FromPairs(ps[..|ps| - 1]), ps[|ps| - 1].0, ps[|ps| - 1].1)
  }

  /** Index of the first pair of `ps` with address `k` (|ps| when absent). */
  function FirstIndex(ps: seq<Entry>, k: int): (r: nat)
    ensures r <= |ps|
    ensures r < |ps| ==> ps[r].0 == k
    ensures forall i :: 0 <= i < r ==> ps[i].0 != k
  {
    if |ps| == 0 then 0
    else if ps[0].0 == k then 0
    else FirstIndex(ps[1..], k) + 1
  }

  /** Value of the last pair of `ps` with address `k`, if any. */
  function LastValue(ps: seq<Entry>, k: int): Option<int> {
    if |ps| == 0 then None
    else if ps[|ps| - 1].0 == k then Some(ps[|ps| - 1].1)
    else LastValue(ps[..|ps| - 1], k)
  }

  /** Appending a pair does not move an earlier first occurrence. */
  lemma FirstIndexOfPrefix(ps: seq<Entry>, k: int)
    requires |ps| > 0
    ensures var q := ps[..|ps| - 1];
      FirstIndex(q, k) < |q| ==> FirstIndex(ps, k) == FirstIndex(q, k)
    ensures var q := ps[..|ps| - 1];
      FirstIndex(q, k) == |q| && ps[|ps| - 1].0 == k ==> FirstIndex(ps, k) == |q|
  {
    var q := ps[..|ps| - 1];
    assert forall i :: 0 <= i < |q| ==> ps[i] == q[i];
  }

  /** The table holds exactly the addresses that occur in the literal. */
  lemma {:induction false} FromPairsKeys(ps: seq<Entry>)
    ensures forall k :: HasKey(FromPairs(ps), k) <==> FirstIndex(ps, k) < |ps|
  {
    if |ps| > 0 {
      var q := ps[..|ps| - 1];
      FromPairsKeys(q);
      forall x ensures FirstIndex(ps, x) < |ps| <==> FirstIndex(q, x) < |q| || x == ps[|ps| - 1].0 {
        FirstIndexOfPrefix(ps, x);
      }
    }
  }

  /** Every address carries the value of its last occurrence in the literal. */
  lemma {:induction false} FromPairsLastValue(ps: seq<Entry>)
    ensures forall i :: 0 <= i < |FromPairs(ps)| ==>
      Some(FromPairs(ps)[i].1) == LastValue(ps, FromPairs(ps)[i].0)
  {
    if |ps| > 0 {
      var q := ps[..|ps| - 1];
      FromPairsLastValue(q);
      var t, r := FromPairs(q), FromPairs(ps);
      forall i | 0 <= i < |r|
        ensures Some(r[i].1) == LastValue(ps, r[i].0)
      {
        if i < |t| && t[i].0 != ps[|ps| - 1].0 {
          assert r[i] == t[i];
        }
      }
    }
  }

  /** Addresses appear in the order of their first occurrence in the literal. */
  lemma {:induction false} FromPairsFirstOrder(ps: seq<Entry>)
    ensures forall i, j :: 0 <= i < j < |FromPairs(ps)| ==>
      FirstIndex(ps, FromPairs(ps)[i].0) < FirstIndex(ps, FromPairs(ps)[j].0)
  {
    if |ps| > 0 {
      var q := ps[..|ps| - 1];
      var k := ps[|ps| - 1].0;
      FromPairsFirstOrder(q);
      FromPairsKeys(q);
      var t, r := FromPairs(q), FromPairs(ps);
      forall i, j | 0 <= i < j < |r|
        ensures FirstIndex(ps, r[i].0) < FirstIndex(ps, r[j].0)
      {
        assert i < |t| && r[i].0 == t[i].0;
        assert HasKey(t, t[i].0);
        FirstIndexOfPrefix(ps, r[i].0);
        FirstIndexOfPrefix(ps, r[j].0);
        if j < |t| {
          assert r[j].0 == t[j].0 && HasKey(t, t[j].0);
        } else {
          assert r[j].0 == k && !HasKey(t, k);
        }
      }
    }
  }

  /** A literal written as parallel address and value lists. */
  function Zip(ks: seq<int>, vs: seq<int>): (ps: seq<Entry>)
    requires |ks| == |vs|
    ensures |ps| == |ks|
    ensures forall i :: 0 <= i < |ps| ==> ps[i] == (ks[i], vs[i])
  {
    seq(|ks|, i requires 0 <= i < |ks| => (ks[i], vs[i]))
  }

  lemma FirstIndexZip(ks: seq<int>, vs: seq<int>, k: int)
    requires |ks| == |vs|
    ensures FirstIndex(Zip(ks, vs), k) < |ks| <==> k in ks
  {
    var ps := Zip(ks, vs);
    if k in ks {
      var i :| 0 <= i < |ks| && ks[i] == k;
      assert ps[i].0 == k;
    }
  }

  /** The last pair with address `k` decides its value. */
  lemma LastValueAt(ps: seq<Entry>, i: nat, k: int)
    requires i < |ps| && ps[i].0 == k
    requires forall j :: i < j < |ps| ==> ps[j].0 != k
    ensures LastValue(ps, k) == Some(ps[i].1)
    decreases |ps|
  {
    if i < |ps| - 1 {
      LastValueAt(ps[..|ps| - 1], i, k);
    }
  }

  // ---------------------------------------------------------------------
  // The literal table
  // ---------------------------------------------------------------------

  /**
   * The addresses of the `REGISTRY_UPDATES` literal in source order, one per
   * line of the literal (41 entries). 0x501F and 0x501f are the same number.
   */
  const RegistryAddresses: seq<int> := [
    0x3503, 0x350A, 0x350B,
    0x5001, 0x5005,
    0x4302, 0x4303, 0x4306, 0x4307, 0x430A, 0x430B,
    0x5000, 0x5481, 0x5482, 0x5483, 0x5484, 0x5485, 0x5486, 0x5487, 0x5488,
    0x3801, 0x3821,
    0x5001, 0x3812, 0x3811,
    0x501F, 0x4300, 0x503D,
    0x3800, 0x3801, 0x3802, 0x3803,
    0x3820, 0x3821,
    0x4300, 0x501f,
    0x5001, 0x5580, 0x5583, 0x5584, 0x5587
  ]

  /** The values of the literal, aligned with `RegistryAddresses`. */
  const RegistryValues: seq<int> := [
    0x01, 0x00, 0x10,
    0x23, 0x32,
    0x03, 0xFF, 0x03, 0xFF, 0x03, 0xFF,
    0x21, 0x26, 0x35, 0x48, 0x57, 0x63, 0x6E, 0x77, 0x80,
    0x01, 0x07,
    0xA3, 0x00, 0x01,
    0x00, 0x30, 0x00,
    0x00, 0x01, 0x00, 0x01,
    0x00, 0x07,
    0x30, 0x00,
    0xA3, 0x02, 0x40, 0x40, 0x00
  ]

  /** `REGISTRY_UPDATES` as Python builds it from the literal. */
  function RegistryUpdates(): Table {
    FromPairs(Zip(RegistryAddresses, RegistryValues))
  }

  /** A zipped literal holds exactly the addresses listed. */
  lemma ZipKeys(ks: seq<int>, vs: seq<int>, k: int)
    requires |ks| == |vs|
    ensures HasKey(FromPairs(Zip(ks, vs)), k) <==> k in ks
  {
    FromPairsKeys(Zip(ks, vs));
    FirstIndexZip(ks, vs, k);
  }

  /** In a zipped literal an address carries the value of its last listing. */
  lemma ZipLookup(ks: seq<int>, vs: seq<int>, i: nat)
    requires |ks| == |vs| && i < |ks|
    requires ks[i] !in ks[i + 1..]
    ensures Lookup(FromPairs(Zip(ks, vs)), ks[i]) == Some(vs[i])
  {
    var ps, k := Zip(ks, vs), ks[i];
    var t := FromPairs(ps);
    ZipKeys(ks, vs, k);
    var n := IndexOf(t, k).value;
    forall j | i < j < |ps| ensures ps[j].0 != k {
      assert ks[j] == ks[i + 1..][j - i - 1];
    }
    LastValueAt(ps, i, k);
    FromPairsLastValue(ps);
    assert Some(t[n].1) == LastValue(ps, t[n].0);
  }

  lemma ExposureAddressUnlisted(k: int)
    requires 0x3500 <= k <= 0x3502
    ensures k !in RegistryAddresses
  {
  }

  /** The exposure registers are not in the base table. */
  lemma ExposureRegistersAbsent()
    ensures !HasKey(RegistryUpdates(), 0x3500)
    ensures !HasKey(RegistryUpdates(), 0x3501)
    ensures !HasKey(RegistryUpdates(), 0x3502)
  {
    ExposureAddressUnlisted(0x3500);
    ExposureAddressUnlisted(0x3501);
    ExposureAddressUnlisted(0x3502);
    ZipKeys(RegistryAddresses, RegistryValues, 0x3500);
    ZipKeys(RegistryAddresses, RegistryValues, 0x3501);
    ZipKeys(RegistryAddresses, RegistryValues, 0x3502);
  }

  /**
   * 0x5001, written three times, keeps the place of its first write (after
   * three other addresses) and the value of its last write, 0xA3.
   */
  lemma Register5001()
    ensures FirstIndex(Zip(RegistryAddresses, RegistryValues), 0x5001) == 3
    ensures Lookup(RegistryUpdates(), 0x5001) == Some(0xA3)
  {
    Register5001Position();
    Register5001Value();
  }

  lemma Register5001Position()
    ensures FirstIndex(Zip(RegistryAddresses, RegistryValues), 0x5001) == 3
  {
    var ps := Zip(RegistryAddresses, RegistryValues);
    assert ps[3].0 == 0x5001 && ps[0].0 != 0x5001 && ps[1].0 != 0x5001 && ps[2].0 != 0x5001;
  }

  lemma Register5001Value()
    ensures Lookup(RegistryUpdates(), 0x5001) == Some(0xA3)
  {
    assert RegistryAddresses[36] == 0x5001 && RegistryValues[36] == 0xA3;
    assert 0x5001 !in RegistryAddresses[37..];
    ZipLookup(RegistryAddresses, RegistryValues, 36);
  }

  /** 0x501F and 0x501f are one address: the table holds it once, with its last value. */
  lemma Register501F()
    ensures HasKey(RegistryUpdates(), 0x501f)
    ensures Lookup(RegistryUpdates(), 0x501F) == Some(0x00)
  {
    assert RegistryAddresses[35] == 0x501f && RegistryValues[35] == 0x00;
    assert 0x501F !in RegistryAddresses[36..];
    ZipLookup(RegistryAddresses, RegistryValues, 35);
  }

  // ---------------------------------------------------------------------
  // Exposure
  // ---------------------------------------------------------------------

  const MinLines := 5
  const MaxLines := 5000
  const ExposureHighReg := 0x3500
  const ExposureMidReg := 0x3501
  const ExposureLowReg := 0x3502

  /** An out-of-range scale is clamped to the nearest bound, not rejected. */
  function ClampScale(scale: int): (s: int)
    ensures 1 <= s <= 10
    ensures 1 <= scale <= 10 ==> s == scale
    ensures scale < 1 ==> s == 1
    ensures scale > 10 ==> s == 10
  {
    Clamp(1, 10, scale)
  }

  /**
   * `int(MIN_LINES + (MAX_LINES - MIN_LINES) * (s - 1) / 9.0)`. The float
   * expression is exact at the ten integer scales because 4995 = 9 * 555,
   * so the linear interpolation lands on whole line counts.
   */
  function ActualLines(s: int): (lines: int)
    requires 1 <= s <= 10
    ensures MinLines <= lines <= MaxLines
    ensures 9 * (lines - MinLines) == (MaxLines - MinLines) * (s - 1)
    ensures s == 1 ==> lines == MinLines
    ensures s == 10 ==> lines == MaxLines
  {
    MinLines + 555 * (s - 1)
  }

  /** More exposure scale, strictly more lines. */
  lemma ActualLinesIncreasing(s: int, s': int)
    requires 1 <= s < s' <= 10
    ensures ActualLines(s) < ActualLines(s')
  {
  }

  /** The three bytes written to 0x3500, 0x3501 and 0x3502. */
  datatype ExposureBytes = ExposureBytes(high: int, mid: int, low: int)

  /** Lines in 1/16-line units, split as bits 19..16, 15..8 and 7..0. */
  function ExposureRegisters(scale: int): (e: ExposureBytes)
    ensures IsByte(e.high) && IsByte(e.mid) && IsByte(e.low)
    ensures e.high <= 1
    ensures e.high * 65536 + e.mid * 256 + e.low == 16 * ActualLines(ClampScale(scale))
  {
    var value := ActualLines(ClampScale(scale)) * 16;
    ExposureBytes((value / 65536) % 256, (value / 256) % 256, value % 256)
  }

  /** `set_exposure_config`: writes the three exposure registers into `updates`. */
  function SetExposureConfig(updates: Table, scale: int): (r: Table)
    ensures |updates| <= |r| <= |updates| + 3
    ensures forall i :: 0 <= i < |updates| ==> r[i].0 == updates[i].0
    ensures forall i :: 0 <= i < |updates| && !(updates[i].0 in {ExposureHighReg, ExposureMidReg, ExposureLowReg}) ==>
      r[i] == updates[i]
    ensures forall j :: |updates| <= j < |r| ==> r[j].0 in {ExposureHighReg, ExposureMidReg, ExposureLowReg}
    ensures HasKey(updates, ExposureHighReg) && HasKey(updates, ExposureMidReg) && HasKey(updates, ExposureLowReg) ==>
      |r| == |updates|
    ensures !HasKey(updates, ExposureHighReg) && !HasKey(updates, ExposureMidReg) && !HasKey(updates, ExposureLowReg) ==>
      r == updates + [(ExposureHighReg, ExposureRegisters(scale).high),
                      (ExposureMidReg, ExposureRegisters(scale).mid),
                      (ExposureLowReg, ExposureRegisters(scale).low)]
  {
    var e := ExposureRegisters(scale);
    Put(Put(Put(updates, ExposureHighReg, e.high), ExposureMidReg, e.mid), ExposureLowReg, e.low)
  }

  /** A later write to another address does not disturb an earlier one. */
  lemma PutKeepsOtherLookup(t: Table, k: int, v: int, x: int)
    requires DistinctKeys(t) && x != k
    ensures Lookup(Put(t, k, v), x) == Lookup(t, x)
  {
    var r := Put(t, k, v);
    if HasKey(t, x) {
      var i := IndexOf(t, x).value;
      assert r[i] == t[i];
    }
  }

  /** After the patch each exposure register holds its byte. */
  lemma ExposureLookups(updates: Table, scale: int)
    requires DistinctKeys(updates)
    ensures var r := SetExposureConfig(updates, scale);
      && DistinctKeys(r)
      && Lookup(r, ExposureHighReg) == Some(ExposureRegisters(scale).high)
      && Lookup(r, ExposureMidReg) == Some(ExposureRegisters(scale).mid)
      && Lookup(r, ExposureLowReg) == Some(ExposureRegisters(scale).low)
  {
    var e := ExposureRegisters(scale);
    var t1 := Put(updates, ExposureHighReg, e.high);
    var t2 := Put(t1, ExposureMidReg, e.mid);
    PutKeepsOtherLookup(t1, ExposureMidReg, e.mid, ExposureHighReg);
    PutKeepsOtherLookup(t2, ExposureLowReg, e.low, ExposureHighReg);
    PutKeepsOtherLookup(t2, ExposureLowReg, e.low, ExposureMidReg);
  }

  /** Scales outside 1..10 program exactly what the nearest bound programs. */
  lemma ExposureClampedScale(updates: Table, scale: int)
    ensures scale < 1 ==> SetExposureConfig(updates, scale) == SetExposureConfig(updates, 1)
    ensures scale > 10 ==> SetExposureConfig(updates, scale) == SetExposureConfig(updates, 10)
  {
  }

  /** On the real table the exposure registers are appended after every base entry. */
  lemma ExposurePatchAppends(scale: int)
    ensures SetExposureConfig(RegistryUpdates(), scale) == RegistryUpdates() + [
      (ExposureHighReg, ExposureRegisters(scale).high),
      (ExposureMidReg, ExposureRegisters(scale).mid),
      (ExposureLowReg, ExposureRegisters(scale).low)]
  {
    ExposureRegistersAbsent();
  }
}
