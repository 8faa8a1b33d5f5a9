/** The hash function of nio_htable. */
module NioHash {

  /** A C string. */
  type Key = seq<bv8>

  /** One character of __def_hash_fn. */
  function HashStep(h: bv64, c: bv8): bv64 {
    FoldBack(Added(h, c as bv64))
  }

  function Added(h: bv64, c: bv64): bv64 {
    (h << 4) + c
  }

  function FoldBack(h: bv64): bv64 {
    var g := h & 0xF000_0000;
    if g != 0 then (h ^ (g >> 24)) ^ g else h
  }

  function HashFrom(h: bv64, key: Key): bv64
    decreases |key|
  {
    if key == [] then h else HashFrom(HashStep(h, key[0]), key[1..])
  }

  /** The cast from unsigned long to unsigned. */
  function Cut(h: bv64): bv64 {
    h & 0xFFFF_FFFF
  }

  function Hash(key: Key): nat {
    Cut(HashFrom(0, key)) as nat
  }

  method HashOf(key: Key) returns (hash: nat)
    ensures hash == Hash(key)
  {
    hide HashStep, Cut;
    var h: bv64 := 0;
    var i := 0;
    while i < |key|
      invariant 0 <= i <= |key|
      invariant HashFrom(h, key[i..]) == HashFrom(0, key)
    {
      assert key[i..][1..] == key[i + 1..];
      h := HashStep(h, key[i]);
      i := i + 1;
    }
    hash := Cut(h) as nat;
  }

  // ----- the same hash in 32 bits

  /** One character, cut to 32 bits. */
  function Shifted(h: bv64, c: bv64): bv64 {
    ((h << 4) + c) & 0xFFFF_FFFF
  }

  /** Without a branch: the four bits at the top come back 24 bits lower. */
  function Rotate(x: bv64): bv64 {
    (x & 0x0FFF_FFFF) ^ ((x >> 28) << 4)
  }

  function FoldFrom(h: bv64, key: Key): bv64
    decreases |key|
  {
    if key == [] then h else FoldFrom(Rotate(Shifted(h, key[0] as bv64)), key[1..])
  }

  lemma ShiftedLow(h: bv64, c: bv64)
    ensures Shifted(h, c) == Shifted(h & 0xFFFF_FFFF, c)
  {
  }

  lemma CutShifted(h: bv64, c: bv64)
    ensures Cut(Added(h, c)) == Shifted(h, c)
  {
  }

  lemma ShiftedCut(h: bv64, c: bv64)
    ensures Shifted(Cut(h), c) == Shifted(h, c)
  {
    hide Shifted;
    ShiftedLow(h, c);
  }

  lemma LowFold(h: bv64)
    ensures ((h ^ ((h & 0xF000_0000) >> 24)) ^ (h & 0xF000_0000)) & 0xFFFF_FFFF
         == ((h & 0xFFFF_FFFF) & 0x0FFF_FFFF) ^ (((h & 0xFFFF_FFFF) >> 28) << 4)
  {
  }

  lemma FoldBackAlways(h: bv64)
    ensures FoldBack(h) == (h ^ ((h & 0xF000_0000) >> 24)) ^ (h & 0xF000_0000)
  {
  }

  lemma CutFolded(h: bv64)
    ensures Cut(FoldBack(h)) == Rotate(Cut(h))
  {
    hide FoldBack;
    FoldBackAlways(h);
    LowFold(h);
  }

  lemma RotateBound(h: bv64)
    ensures Rotate(Cut(h)) < 0x1000_0000
  {
  }

  lemma StepFolds(h: bv64, c: bv8)
    ensures Cut(HashStep(h, c)) == Rotate(Shifted(Cut(h), c as bv64)) < 0x1000_0000
  {
    hide Cut, FoldBack, Rotate, Shifted, Added;
    var d := c as bv64;
    var x := Added(h, d);
    CutShifted(h, d);
    ShiftedCut(h, d);
    CutFolded(x);
    RotateBound(x);
  }

  lemma {:induction false} FoldsFrom(h: bv64, key: Key)
    requires Cut(h) < 0x1000_0000
    ensures Cut(HashFrom(h, key)) == FoldFrom(Cut(h), key) < 0x1000_0000
    decreases |key|
  {
    hide HashStep, Cut, Rotate, Shifted;
    if key != [] {
      StepFolds(h, key[0]);
      FoldsFrom(HashStep(h, key[0]), key[1..]);
    }
  }

  /** The carry that a 64-bit `unsigned long` keeps beyond bit 31 never comes back: every key has the hash that 32-bit
      arithmetic gives, and it has 28 bits. */
  lemma HashFolds(key: Key)
    ensures FoldFrom(0, key) < 0x1000_0000
    ensures Hash(key) == FoldFrom(0, key) as nat
  {
    hide HashFrom, FoldFrom;
    FoldsFrom(0, key);
  }
}
