/**
 The block chaining of the data-contract tool: each plaintext block is xored with the ciphertext
 block before it, the first with zero, and enciphered by SIMON with 64-bit words.
 */
module Chaining {
  import opened Simon

  const ZERO: Block := Block(0, 0)

  function XorBlock(a: Block, b: Block): Block { Block(Xor(a.lo, b.lo), Xor(a.hi, b.hi)) }

  lemma XorUndone(a: Word, b: Word)
    ensures Xor(Xor(a, b), b) == a
    ensures Xor(a, b) == Xor(b, a)
  {
  }

  lemma XorBlockUndone(a: Block, b: Block)
    ensures XorBlock(XorBlock(a, b), b) == a
  {
    hide Xor;
    XorUndone(a.lo, b.lo);
    XorUndone(a.hi, b.hi);
  }

  lemma AllBlocksFit(b: Block)
    ensures BlockFits(b, 64)
  {
  }

  // The block that is xored into block i.
  ghost function Before(c: seq<Block>, i: nat): Block
    requires i <= |c|
  {
    if i == 0 then ZERO else c[i - 1]
  }

  ghost predicate IsChain(keys: seq<Word>, p: seq<Block>, c: seq<Block>) {
    |p| == |c| && forall i :: 0 <= i < |p| ==> c[i] == Encrypted(XorBlock(p[i], Before(c, i)), keys, 64)
  }

  ghost function Unchained(keys: seq<Word>, c: seq<Block>): (p: seq<Block>)
    ensures |p| == |c|
  {
    seq(|c|, i requires 0 <= i < |c| => XorBlock(Decrypted(c[i], keys, 64), Before(c, i)))
  }

  // Deciphering a chain gives the plaintext back.
  lemma ChainUndone(keys: seq<Word>, p: seq<Block>, c: seq<Block>)
    requires IsChain(keys, p, c)
    ensures Unchained(keys, c) == p
  {
    hide Encrypted, Decrypted, XorBlock;
    forall i | 0 <= i < |p| ensures Unchained(keys, c)[i] == p[i] {
      var b := XorBlock(p[i], Before(c, i));
      AllBlocksFit(b);
      CipherIsBijective(b, keys, 64);
      XorBlockUndone(p[i], Before(c, i));
    }
  }

  // Any ciphertext is the chain of what it deciphers to.
  lemma UnchainedIsChain(keys: seq<Word>, c: seq<Block>)
    ensures IsChain(keys, Unchained(keys, c), c)
  {
    hide Encrypted, Decrypted, XorBlock;
    var p := Unchained(keys, c);
    forall i | 0 <= i < |c| ensures c[i] == Encrypted(XorBlock(p[i], Before(c, i)), keys, 64) {
      AllBlocksFit(c[i]);
      CipherIsBijective(c[i], keys, 64);
      XorBlockUndone(Decrypted(c[i], keys, 64), Before(c, i));
    }
  }

  lemma UnchainedIsInjective(keys: seq<Word>, c: seq<Block>, c': seq<Block>)
    requires c != c'
    ensures Unchained(keys, c) != Unchained(keys, c')
  {
    UnchainedIsChain(keys, c);
    UnchainedIsChain(keys, c');
    hide Unchained, IsChain;
    if Unchained(keys, c) == Unchained(keys, c') {
      ChainIsDetermined(keys, Unchained(keys, c), c, c');
      assert false;
    }
  }

  lemma ChainIsDetermined(keys: seq<Word>, p: seq<Block>, c: seq<Block>, c': seq<Block>)
    requires IsChain(keys, p, c) && IsChain(keys, p, c')
    ensures c == c'
  {
    hide Encrypted, XorBlock;
    for i := 0 to |p|
      invariant forall j :: 0 <= j < i ==> c[j] == c'[j]
    {
      assert Before(c, i) == Before(c', i);
    }
  }

  lemma DecryptedDiffers(a: Block, b: Block, keys: seq<Word>)
    requires a != b
    ensures Decrypted(a, keys, 64) != Decrypted(b, keys, 64)
  {
    hide Encrypted, Decrypted;
    AllBlocksFit(a);
    AllBlocksFit(b);
    CipherIsBijective(a, keys, 64);
    CipherIsBijective(b, keys, 64);
  }

  lemma XorBlockDiffers(a: Block, b: Block, c: Block)
    requires a != b
    ensures XorBlock(a, c) != XorBlock(b, c)
  {
    XorBlockUndone(a, c);
    XorBlockUndone(b, c);
    hide Xor;
  }

  // Changing ciphertext block i to b changes the deciphered block i, xors both blocks into the
  // deciphered block i + 1, and leaves every other block alone.
  lemma ErrorPropagation(keys: seq<Word>, c: seq<Block>, i: nat, b: Block)
    requires i < |c| && b != c[i]
    ensures var p, q := Unchained(keys, c), Unchained(keys, c[i := b]);
            && (forall j :: 0 <= j < |c| && j != i && j != i + 1 ==> q[j] == p[j])
            && q[i] != p[i]
            && (i + 1 < |c| ==> q[i + 1] == XorBlock(XorBlock(p[i + 1], c[i]), b) && q[i + 1] != p[i + 1])
  {
    hide Encrypted, Decrypted, XorBlock;
    DecryptedDiffers(b, c[i], keys);
    XorBlockDiffers(Decrypted(b, keys, 64), Decrypted(c[i], keys, 64), Before(c, i));
    if i + 1 < |c| {
      XorBlockUndone(Decrypted(c[i + 1], keys, 64), c[i]);
      XorOfDistinct(Decrypted(c[i + 1], keys, 64), b, c[i]);
    }
  }

  lemma XorOfDistinct(d: Block, a: Block, b: Block)
    requires a != b
    ensures XorBlock(d, a) != XorBlock(d, b)
  {
    hide Xor;
    XorUndone(a.lo, d.lo);
    XorUndone(a.hi, d.hi);
    XorUndone(b.lo, d.lo);
    XorUndone(b.hi, d.hi);
    XorUndone(d.lo, a.lo);
    XorUndone(d.hi, a.hi);
    XorUndone(d.lo, b.lo);
    XorUndone(d.hi, b.hi);
  }

  // ---- The program ----

  lemma ChainGrows(keys: seq<Word>, p: seq<Block>, c: seq<Block>, i: nat)
    requires i < |p| == |c| && IsChain(keys, p[..i], c[..i])
    requires c[i] == Encrypted(XorBlock(p[i], Before(c, i)), keys, 64)
    ensures IsChain(keys, p[..i + 1], c[..i + 1])
  {
    hide Encrypted, XorBlock;
    var p', c' := p[..i + 1], c[..i + 1];
    forall j | 0 <= j < i + 1 ensures c'[j] == Encrypted(XorBlock(p'[j], Before(c', j)), keys, 64) {
      if j < i {
        assert c[..i][j] == Encrypted(XorBlock(p[..i][j], Before(c[..i], j)), keys, 64);
      }
    }
  }

  lemma UnchainedGrows(keys: seq<Word>, p: seq<Block>, c: seq<Block>, i: nat)
    requires i < |p| == |c| && p[..i] == Unchained(keys, c[..i])
    requires p[i] == XorBlock(Decrypted(c[i], keys, 64), Before(c, i))
    ensures p[..i + 1] == Unchained(keys, c[..i + 1])
  {
    hide Decrypted, XorBlock;
    forall j | 0 <= j < i ensures p[j] == Unchained(keys, c[..i + 1])[j] {
      assert p[j] == p[..i][j] == Unchained(keys, c[..i])[j];
    }
  }

  method SimonEncrypt(rounds: nat, keySchedule: array<Word>, src: array<Block>, dst: array<Block>)
    requires rounds <= keySchedule.Length && src.Length == dst.Length && src != dst
      && keySchedule as object != dst as object
    modifies dst
    ensures IsChain(keySchedule[..rounds], src[..], dst[..])
  {
    hide Encrypted, XorBlock, IsChain;
    ghost var keys, p := keySchedule[..rounds], src[..];
    var iv := ZERO;
    ChainStarts(keys, p, dst[..]);
    for i := 0 to src.Length
      invariant keySchedule[..rounds] == keys && src[..] == p
      invariant iv == Before(dst[..], i) && IsChain(keys, p[..i], dst[..i])
    {
      ghost var before := dst[..];
      var b := XorBlock(src[i], iv);
      var c := EncryptBlock(rounds, keySchedule, b);
      dst[i] := c;
      iv := dst[i];
      assert dst[..i] == before[..i] == dst[..][..i] && dst[..][..i + 1] == dst[..i + 1];
      ChainGrows(keys, p, dst[..], i);
    }
    assert p[..src.Length] == p && dst[..src.Length] == dst[..];
  }

  lemma ChainStarts(keys: seq<Word>, p: seq<Block>, c: seq<Block>)
    ensures IsChain(keys, p[..0], c[..0])
  {
  }

  method SimonDecrypt(rounds: nat, keySchedule: array<Word>, src: array<Block>, dst: array<Block>)
    requires rounds <= keySchedule.Length && src.Length == dst.Length && src != dst
      && keySchedule as object != dst as object
    modifies dst
    ensures dst[..] == Unchained(keySchedule[..rounds], src[..])
  {
    hide Decrypted, XorBlock;
    ghost var keys, c := keySchedule[..rounds], src[..];
    var iv := ZERO;
    for i := 0 to src.Length
      invariant keySchedule[..rounds] == keys && src[..] == c
      invariant iv == Before(c, i) && dst[..i] == Unchained(keys, c[..i])
    {
      ghost var before := dst[..];
      var p := DecryptBlock(rounds, keySchedule, src[i]);
      dst[i] := XorBlock(p, iv);
      iv := src[i];
      assert dst[..i] == before[..i] == dst[..][..i] && dst[..][..i + 1] == dst[..i + 1];
      UnchainedGrows(keys, dst[..], c, i);
    }
    assert c[..src.Length] == c && dst[..src.Length] == dst[..];
  }

  method EncryptBlock(rounds: nat, keySchedule: array<Word>, b: Block) returns (c: Block)
    requires rounds <= keySchedule.Length
    ensures c == Encrypted(b, keySchedule[..rounds], 64)
  {
    hide Encrypted;
    var buffer := new Word[2];
    buffer[0] := b.lo;
    buffer[1] := b.hi;
    Encrypt(rounds, keySchedule, buffer, buffer, 64);
    c := Block(buffer[0], buffer[1]);
  }

  method DecryptBlock(rounds: nat, keySchedule: array<Word>, c: Block) returns (b: Block)
    requires rounds <= keySchedule.Length
    ensures b == Decrypted(c, keySchedule[..rounds], 64)
  {
    hide Decrypted;
    var buffer := new Word[2];
    buffer[0] := c.lo;
    buffer[1] := c.hi;
    Decrypt(rounds, keySchedule, buffer, buffer, 64);
    b := Block(buffer[0], buffer[1]);
  }
}
