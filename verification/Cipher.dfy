/** crypt_data of crypt.c: a buffer xored in place with a 16-byte key, word by word and then byte by
    byte; and how far get_xor_key reads into its scratch copy of the key it is given. */
module Cipher {
  type Octet = bv8

  function Xor(a: Octet, b: Octet): Octet { a ^ b }

  lemma XorTwice(a: Octet, b: Octet)
    ensures Xor(Xor(a, b), b) == a
  {
  }

  /** The byte of the key for place i. */
  function Phase(i: nat): (k: nat)
    ensures k < 16
  {
    i % 16
  }

  /** The first size bytes xored with the key, taken round and round. */
  function Crypted(data: seq<Octet>, size: nat, key: seq<Octet>): (r: seq<Octet>)
    requires |key| == 16 && size <= |data|
    ensures |r| == |data|
  {
    seq(|data|, i requires 0 <= i < |data| => if i < size then Xor(data[i], key[Phase(i)]) else data[i])
  }

  /** Encrypting and decrypting are one operation. */
  lemma CryptedTwice(data: seq<Octet>, size: nat, key: seq<Octet>)
    requires |key| == 16 && size <= |data|
    ensures Crypted(Crypted(data, size, key), size, key) == data
  {
    hide Xor;
    var r := Crypted(data, size, key);
    forall i | 0 <= i < |data| ensures Crypted(r, size, key)[i] == data[i] {
      if i < size {
        XorTwice(data[i], key[Phase(i)]);
      }
    }
  }

  /** Two bytes xor to zero exactly if they are equal, and zero changes nothing. */
  lemma XorTells(a: Octet, b: Octet)
    ensures Xor(a, b) == 0 <==> a == b
    ensures Xor(0, b) == b && Xor(a, b) == Xor(b, a)
  {
  }

  /** What encryption does to a byte: data of zeros shows the key, a byte stays as it is exactly where
      the key is zero, and bytes behind the size always do. */
  lemma CryptedAt(data: seq<Octet>, size: nat, key: seq<Octet>, i: nat)
    requires |key| == 16 && size <= |data| && i < |data|
    ensures i < size && data[i] == 0 ==> Crypted(data, size, key)[i] == key[i % 16]
    ensures i < size ==> (Crypted(data, size, key)[i] == data[i] <==> key[i % 16] == 0)
    ensures i >= size ==> Crypted(data, size, key)[i] == data[i]
  {
    hide Xor;
    XorTells(data[i], key[i % 16]);
    XorTells(key[i % 16], 0);
    SameXor(data[i], key[i % 16]);
  }

  lemma SameXor(a: Octet, b: Octet)
    ensures Xor(a, b) == a <==> b == 0
  {
  }

  /** Data may be taken in pieces of whole blocks. */
  lemma CryptedInPieces(front: seq<Octet>, back: seq<Octet>, key: seq<Octet>)
    requires |key| == 16 && |front| % 16 == 0
    ensures Crypted(front + back, |front| + |back|, key) == Crypted(front, |front|, key) + Crypted(back, |back|, key)
  {
    hide Xor, Phase;
    var whole := Crypted(front + back, |front| + |back|, key);
    var pieces := Crypted(front, |front|, key) + Crypted(back, |back|, key);
    forall k | 0 <= k < |whole| ensures whole[k] == pieces[k] {
      if k >= |front| {
        BlocksKeepPhase(|front|, k - |front|);
      }
    }
  }

  lemma BlocksKeepPhase(front: nat, i: nat)
    requires front % 16 == 0
    ensures Phase(front + i) == Phase(i)
  {
    assert front + i == 16 * (front / 16) + i;
  }

  lemma FirstPhase(i: nat)
    requires i < 16
    ensures Phase(i) == i
  {
  }

  lemma Blocks(size: nat)
    ensures 16 * (size / 16) + size % 16 == size
  {
  }

  /** One xor of the block loop: a 32-bit word of data with word w of the key, byte by byte. */
  method XorWord(data: array<Octet>, at: nat, key: seq<Octet>, w: nat)
    requires |key| == 16 && w < 4 && at + 4 <= data.Length
    modifies data
    ensures forall k :: 0 <= k < data.Length ==>
      data[k] == if at <= k < at + 4 then Xor(old(data[k]), key[4 * w + k - at]) else old(data[k])
  {
    hide Xor;
    data[at] := Xor(data[at], key[4 * w]);
    data[at + 1] := Xor(data[at + 1], key[4 * w + 1]);
    data[at + 2] := Xor(data[at + 2], key[4 * w + 2]);
    data[at + 3] := Xor(data[at + 3], key[4 * w + 3]);
  }

  /** One round of the block loop. */
  method XorBlock(data: array<Octet>, at: nat, key: seq<Octet>)
    requires |key| == 16 && at + 16 <= data.Length
    modifies data
    ensures forall k :: 0 <= k < data.Length ==>
      data[k] == if at <= k < at + 16 then Xor(old(data[k]), key[k - at]) else old(data[k])
  {
    hide Xor;
    XorWord(data, at, key, 0);
    XorWord(data, at + 4, key, 1);
    XorWord(data, at + 8, key, 2);
    XorWord(data, at + 12, key, 3);
  }

  /** The block loop of crypt_data: the whole blocks. */
  method CryptBlocks(data: array<Octet>, size: nat, key: seq<Octet>) returns (ptr: nat)
    requires |key| == 16 && size <= data.Length
    modifies data
    ensures ptr == 16 * (size / 16) <= size
    ensures forall k :: 0 <= k < data.Length ==>
              data[k] == if k < ptr then Xor(old(data[k]), key[Phase(k)]) else old(data[k])
  {
    hide Xor, Phase;
    ghost var was := data[..];
    ptr := 0;
    for i := 0 to size / 16
      invariant ptr == 16 * i
      invariant forall k :: 0 <= k < data.Length ==> data[k] == if k < ptr then Xor(was[k], key[Phase(k)]) else was[k]
    {
      XorBlock(data, ptr, key);
      forall k | ptr <= k < ptr + 16 ensures Phase(k) == k - ptr {
        BlocksKeepPhase(ptr, k - ptr);
        FirstPhase(k - ptr);
      }
      ptr := ptr + 16;
    }
  }

  /** crypt_data. */
  method CryptData(data: array<Octet>, size: nat, key: seq<Octet>)
    requires |key| == 16 && size <= data.Length
    modifies data
    ensures data[..] == Crypted(old(data[..]), size, key)
  {
    hide Xor, Phase;
    ghost var was := data[..];
    var ptr := CryptBlocks(data, size, key);
    ghost var whole := ptr;
    Blocks(size);
    for i := 0 to size % 16
      invariant ptr == whole + i
      invariant forall k :: 0 <= k < data.Length ==> data[k] == if k < ptr then Xor(was[k], key[Phase(k)]) else was[k]
    {
      BlocksKeepPhase(whole, i);
      FirstPhase(i);
      data[ptr] := Xor(data[ptr], key[i]);
      ptr := ptr + 1;
    }
    assert data[..] == Crypted(was, size, key);
  }

  // ----- the scratch copy of get_xor_key

  /** The characters of a key are signed. */
  function Signed(c: Octet): int { if c < 0x80 then c as int else c as int - 256 }

  function CharSum(key: seq<Octet>): int { if key == [] then 0 else CharSum(key[..|key| - 1]) + Signed(key[|key| - 1]) }

  /** The rounds of the first loop: the five low bits of the sum, and sixteen. */
  function Rounds(key: seq<Octet>): (n: nat)
    ensures 16 <= n < 48
  {
    CharSum(key) % 32 + 16
  }

  /** The place of the scratch copy that a round reads. */
  function Place(round: nat, size: nat): nat { if size == 0 then round else round % size }

  lemma NextPlace(round: nat, size: nat)
    ensures size > 0 ==> Place(round + 1, size) == if Place(round, size) + 1 == size then 0 else Place(round, size) + 1
  {
    if size > 0 {
      var q, r := round / size, round % size;
      assert round == q * size + r;
      if r + 1 == size {
        ProductRest(q + 1, size, 0);
        assert (q + 1) * size == q * size + size;
      } else {
        ProductRest(q, size, r + 1);
      }
    }
  }

  /** There is one remainder. */
  lemma ProductRest(q: nat, size: nat, r: nat)
    requires r < size
    ensures (q * size + r) % size == r
  {
    var x := q * size + r;
    var q', r' := x / size, x % size;
    assert x == q' * size + r';
    SameQuotient(q, r, q', r', size);
  }

  lemma SameQuotient(q: nat, r: nat, q': nat, r': nat, size: nat)
    requires r < size && r' < size && q * size + r == q' * size + r'
    ensures q == q' && r == r'
  {
    MoreIsMore(q, r, q', size);
    MoreIsMore(q', r', q, size);
  }

  lemma MoreIsMore(q: nat, r: nat, q': nat, size: nat)
    requires r < size
    ensures q < q' ==> q * size + r < q' * size
    decreases q'
  {
    if q < q' {
      OneMore(q' - 1, size);
      if q + 1 < q' {
        MoreIsMore(q, r, q' - 1, size);
      }
    }
  }

  lemma OneMore(q: nat, size: nat)
    ensures (q + 1) * size == q * size + size
  {
  }

  /** The places read, in the order of the rounds, with the counter that starts over at the size. */
  method ReadPlaces(key: seq<Octet>) returns (places: seq<nat>)
    ensures |places| == Rounds(key) && forall r :: 0 <= r < |places| ==> places[r] == Place(r, |key|)
  {
    hide Place;
    var rounds, at: nat := Rounds(key), 0;
    places := [];
    FirstPlace(|key|);
    for round := 0 to rounds
      invariant |places| == round && forall r :: 0 <= r < round ==> places[r] == Place(r, |key|)
      invariant if at == |key| then Place(round, |key|) == 0 else at == Place(round, |key|)
      invariant |key| == 0 ==> at == round && Place(round, 0) == round
    {
      if at == |key| {
        at := 0;
      }
      places := places + [at];
      at := at + 1;
      NextPlace(round, |key|);
      EmptyPlace(round + 1);
    }
  }

  lemma FirstPlace(size: nat)
    ensures Place(0, size) == 0
  {
  }

  lemma EmptyPlace(round: nat)
    ensures Place(round, 0) == round
  {
  }

  /** Every round reads inside the 16-byte copy exactly if the key has at most 16 bytes or there are
      no more than 16 rounds. */
  lemma StaysInScratchIff(key: seq<Octet>)
    ensures (forall r :: 0 <= r < Rounds(key) ==> Place(r, |key|) < 16) <==> |key| <= 16 || Rounds(key) <= 16
  {
    hide Place, Rounds;
    if |key| > 16 && Rounds(key) > 16 {
      SmallPlace(16, |key|);
    }
    EmptyRounds(key);
    forall r | 0 <= r < Rounds(key) && Rounds(key) <= 16 ensures Place(r, |key|) < 16 {
      PlaceBound(r, |key|);
    }
    forall r | 0 <= r < Rounds(key) && |key| <= 16 ensures Place(r, |key|) < 16 {
      PlaceBound(r, |key|);
    }
  }

  /** A key of 17 bytes that leaves it: sixteen zeros and a one, of which the last round reads the one. */
  lemma LongKeyLeavesScratch()
    ensures var key := seq(16, _ => 0) + [1];
            Rounds(key) == 17 && Place(16, |key|) == 16
  {
    var zeros: seq<Octet> := seq(16, _ => 0);
    assert (zeros + [1])[..16] == zeros;
    ZerosSum(zeros);
  }

  lemma {:induction false} ZerosSum(key: seq<Octet>)
    requires forall i :: 0 <= i < |key| ==> key[i] == 0
    ensures CharSum(key) == 0
  {
    if key != [] {
      ZerosSum(key[..|key| - 1]);
    }
  }

  lemma SmallPlace(round: nat, size: nat)
    requires round < size
    ensures Place(round, size) == round
  {
  }

  lemma EmptyRounds(key: seq<Octet>)
    ensures key == [] ==> Rounds(key) == 16
  {
  }

  lemma PlaceBound(round: nat, size: nat)
    ensures Place(round, size) <= round && (size > 0 ==> Place(round, size) < size)
  {
    if size > 0 && round >= size {
      assert round % size < size;
    }
  }
}
