/** Unsigned bytes as they sit in EEPROM cells and CAN payloads. */
module Bytes {
  type byte = x: int | 0 <= x < 256
}

/** Sequences of any element type. */
module Seqs {
  /** s with the elements d stored from index a on. */
  function Put<T>(s: seq<T>, a: nat, d: seq<T>): (r: seq<T>)
    requires a + |d| <= |s|
    ensures |r| == |s|
  {
    s[..a] + d + s[a + |d|..]
  }

  lemma PutPointwise<T>(s: seq<T>, a: nat, d: seq<T>, r: seq<T>)
    requires a + |d| <= |s| == |r|
    requires forall j :: 0 <= j < |r| ==> r[j] == if a <= j < a + |d| then d[j - a] else s[j]
    ensures r == Put(s, a, d)
  {
  }

  lemma PutNothing<T>(s: seq<T>, a: nat, d: seq<T>)
    requires a <= |s|
    ensures Put(s, a, d[..0]) == s
  {
  }

  /** Storing one more element. */
  lemma PutMore<T>(s: seq<T>, a: nat, d: seq<T>, j: nat)
    requires a + |d| <= |s| && j < |d|
    ensures Put(s, a, d[..j])[a + j := d[j]] == Put(s, a, d[..j + 1])
  {
  }

  lemma SliceOfSlice<T>(s: seq<T>, a: nat, b: nat, i: nat, j: nat)
    requires a <= b <= |s| && i <= j <= b - a
    ensures s[a..b][i..j] == s[a + i..a + j]
  {
    forall k | 0 <= k < j - i ensures s[a..b][i..j][k] == s[a + i..a + j][k] {
      assert s[a..b][i..j][k] == s[a..b][i + k];
    }
  }

  /** Storing elsewhere leaves a range alone. */
  lemma PutOutside<T>(s: seq<T>, a: nat, d: seq<T>, i: nat, j: nat)
    requires a + |d| <= |s| && i <= j <= |s| && (j <= a || a + |d| <= i)
    ensures Put(s, a, d)[i..j] == s[i..j]
  {
    var r := Put(s, a, d);
    forall k | 0 <= k < j - i ensures r[i..j][k] == s[i..j][k] {
      assert r[i + k] == s[i + k];
    }
  }

  /** The stored range holds what was stored. */
  lemma PutInside<T>(s: seq<T>, a: nat, d: seq<T>)
    requires a + |d| <= |s|
    ensures Put(s, a, d)[a..a + |d|] == d
  {
  }

  lemma Assoc<T>(a: seq<T>, b: seq<T>, c: seq<T>)
    ensures a + (b + c) == (a + b) + c
  {
  }
}

/** Machine bytes as numbers and back. */
module Octets {
  import opened Bytes

  function FromOctet(b: bv8): byte { b as nat }

  function ToOctet(x: byte): bv8 { x as bv8 }

  lemma OctetRoundTrip(b: bv8)
    ensures ToOctet(FromOctet(b)) == b
  {
  }
}
