/**
 The data-contract tool: the 64-byte layout of a contract, the text file that carries it
 enciphered, and the check that reads it back.

 The key encapsulation, the key derivation and the hash are functions given from outside.
 */
module DcTool {
  import opened Chaining
  import opened Common
  import opened ContractText
  import opened Simon

  // ---- Words and bytes ----

  function ByteOf(v: bv64, s: bv8): bv8
    requires s <= 56
  {
    ((v >> s) & 0xff) as bv8
  }

  function Shifted(b: bv8, s: bv8): bv64
    requires s <= 56
  {
    (b as bv64) << s
  }

  function StoreU64Be(v: bv64): (b: Bytes)
    ensures |b| == 8
  {
    [ByteOf(v, 56), ByteOf(v, 48), ByteOf(v, 40), ByteOf(v, 32), ByteOf(v, 24), ByteOf(v, 16), ByteOf(v, 8),
      ByteOf(v, 0)]
  }

  function Or8(a: bv64, b: bv64, c: bv64, d: bv64, e: bv64, f: bv64, g: bv64, h: bv64): bv64 {
    a | b | c | d | e | f | g | h
  }

  function LoadU64Be(b: Bytes): bv64
    requires |b| == 8
  {
    Or8(Shifted(b[0], 56), Shifted(b[1], 48), Shifted(b[2], 40), Shifted(b[3], 32),
        Shifted(b[4], 24), Shifted(b[5], 16), Shifted(b[6], 8), Shifted(b[7], 0))
  }

  lemma JoinBytes(v: bv64)
    ensures Or8(Shifted(ByteOf(v, 56), 56), Shifted(ByteOf(v, 48), 48),
                Shifted(ByteOf(v, 40), 40), Shifted(ByteOf(v, 32), 32),
                Shifted(ByteOf(v, 24), 24), Shifted(ByteOf(v, 16), 16),
                Shifted(ByteOf(v, 8), 8), Shifted(ByteOf(v, 0), 0)) == v
  {
  }

  lemma SplitBytes(a: bv8, b: bv8, c: bv8, d: bv8, e: bv8, f: bv8, g: bv8, h: bv8)
    ensures var v := Or8(Shifted(a, 56), Shifted(b, 48), Shifted(c, 40), Shifted(d, 32),
                         Shifted(e, 24), Shifted(f, 16), Shifted(g, 8), Shifted(h, 0));
            && ByteOf(v, 56) == a && ByteOf(v, 48) == b && ByteOf(v, 40) == c && ByteOf(v, 32) == d
            && ByteOf(v, 24) == e && ByteOf(v, 16) == f && ByteOf(v, 8) == g && ByteOf(v, 0) == h
  {
  }

  lemma BeRoundTrip(v: bv64, b: Bytes)
    requires |b| == 8
    ensures LoadU64Be(StoreU64Be(v)) == v && StoreU64Be(LoadU64Be(b)) == b
  {
    hide ByteOf, Shifted, Or8;
    JoinBytes(v);
    SplitBytes(b[0], b[1], b[2], b[3], b[4], b[5], b[6], b[7]);
  }

  // The number that bytes stand for, most significant first, in 64 bits.
  function NumberOf(b: Bytes): bv64 {
    if b == [] then 0 else OneMore(NumberOf(b[..|b| - 1]), b[|b| - 1])
  }

  function OneMore(n: bv64, b: bv8): bv64 { n * 256 + b as bv64 }

  lemma Horner(a: bv8, b: bv8, c: bv8, d: bv8, e: bv8, f: bv8, g: bv8, h: bv8)
    ensures Or8(Shifted(a, 56), Shifted(b, 48), Shifted(c, 40), Shifted(d, 32),
                Shifted(e, 24), Shifted(f, 16), Shifted(g, 8), Shifted(h, 0))
      == OneMore(OneMore(OneMore(OneMore(OneMore(OneMore(OneMore(OneMore(0, a), b), c), d), e), f), g), h)
  {
  }

  // Big-endian: the first byte is the highest one.
  lemma LoadIsBigEndian(b: Bytes)
    requires |b| == 8
    ensures LoadU64Be(b) == NumberOf(b)
  {
    hide Or8, Shifted, OneMore, NumberOf;
    Horner(b[0], b[1], b[2], b[3], b[4], b[5], b[6], b[7]);
    NumberSteps(b);
  }

  lemma NumberSteps(b: Bytes)
    requires |b| == 8
    ensures NumberOf(b) == OneMore(OneMore(OneMore(OneMore(OneMore(OneMore(OneMore(OneMore(0, b[0]), b[1]), b[2]),
      b[3]), b[4]), b[5]), b[6]), b[7])
  {
    hide OneMore, NumberOf;
    NumberStep(b, 0); NumberStep(b, 1); NumberStep(b, 2); NumberStep(b, 3);
    NumberStep(b, 4); NumberStep(b, 5); NumberStep(b, 6); NumberStep(b, 7);
    assert b[..8] == b;
  }

  lemma NumberStep(b: Bytes, n: nat)
    requires n < |b|
    ensures NumberOf(b[..n + 1]) == OneMore(if n == 0 then 0 else NumberOf(b[..n]), b[n])
  {
    hide OneMore;
    assert b[..n + 1][..n] == b[..n];
    assert n == 0 ==> b[..n] == [];
  }

  lemma StoreIsBigEndian(v: bv64)
    ensures NumberOf(StoreU64Be(v)) == v
  {
    hide NumberOf, StoreU64Be, LoadU64Be;
    LoadIsBigEndian(StoreU64Be(v));
    BeRoundTrip(v, StoreU64Be(v));
  }

  // ---- The contract and its 64 bytes ----

  const SIG: Bytes := [0x4d, 0x6f, 0x6a, 0x6f, 0x2d, 0x56, 0x20, 0x76, 0x65, 0x72, 0x2e, 0x20, 0x23, 0x30, 0x30, 0x31]

  // The header is this text, one character a byte.
  lemma HeaderText()
    ensures |SIG| == 16 && forall i :: 0 <= i < 16 ==> SIG[i] as int == "Mojo-V ver. #001"[i] as int
  {
    var t := "Mojo-V ver. #001";
    assert SIG[0] as int == t[0] as int && SIG[1] as int == t[1] as int && SIG[2] as int == t[2] as int;
    assert SIG[3] as int == t[3] as int && SIG[4] as int == t[4] as int && SIG[5] as int == t[5] as int;
    assert SIG[6] as int == t[6] as int && SIG[7] as int == t[7] as int && SIG[8] as int == t[8] as int;
    assert SIG[9] as int == t[9] as int && SIG[10] as int == t[10] as int && SIG[11] as int == t[11] as int;
    assert SIG[12] as int == t[12] as int && SIG[13] as int == t[13] as int && SIG[14] as int == t[14] as int;
    assert SIG[15] as int == t[15] as int;
  }

  const DC_WIRE_LEN: nat := 64

  datatype Contract = Contract(salt: bv64, sig: Bytes, symKey128: Bytes, contractSig: bv64, ciphers: bv64,
    formatSel: bv8, pad: Bytes)

  predicate WellFormed(dc: Contract) {
    |dc.sig| == 16 && |dc.symKey128| == 16 && |dc.pad| == 7
  }

  function Encoded(dc: Contract): (b: Bytes)
    requires WellFormed(dc)
    ensures |b| == DC_WIRE_LEN
  {
    StoreU64Be(dc.salt) + dc.sig + dc.symKey128 + StoreU64Be(dc.contractSig) + StoreU64Be(dc.ciphers)
    + [dc.formatSel] + dc.pad
  }

  function Decoded(b: Bytes): (dc: Contract)
    requires |b| == DC_WIRE_LEN
    ensures WellFormed(dc)
  {
    Contract(LoadU64Be(b[0..8]), b[8..24], b[24..40], LoadU64Be(b[40..48]), LoadU64Be(b[48..56]), b[56], b[57..64])
  }

  // Every contract survives encoding, and every 64 bytes are the encoding of what they decode to.
  lemma LayoutRoundTrip(dc: Contract, b: Bytes)
    requires WellFormed(dc) && |b| == DC_WIRE_LEN
    ensures Decoded(Encoded(dc)) == dc && Encoded(Decoded(b)) == b
  {
    hide StoreU64Be, LoadU64Be;
    BeRoundTrip(dc.salt, b[0..8]);
    BeRoundTrip(dc.contractSig, b[40..48]);
    BeRoundTrip(dc.ciphers, b[48..56]);
    FieldsOf(dc);
    assert b == b[0..8] + b[8..24] + b[24..40] + b[40..48] + b[48..56] + [b[56]] + b[57..64];
  }

  lemma FieldsOf(dc: Contract)
    requires WellFormed(dc)
    ensures var e := Encoded(dc);
            && e[0..8] == StoreU64Be(dc.salt) && e[8..24] == dc.sig && e[24..40] == dc.symKey128
            && e[40..48] == StoreU64Be(dc.contractSig) && e[48..56] == StoreU64Be(dc.ciphers)
            && e[56] == dc.formatSel && e[57..64] == dc.pad
  {
    hide StoreU64Be;
    var p1 := StoreU64Be(dc.salt);
    var p2 := p1 + dc.sig;
    var p3 := p2 + dc.symKey128;
    var p4 := p3 + StoreU64Be(dc.contractSig);
    var p5 := p4 + StoreU64Be(dc.ciphers);
    var p6 := p5 + [dc.formatSel];
    PiecesKept(p1, dc.sig);
    PiecesKept(p2, dc.symKey128);
    PiecesKept(p3, StoreU64Be(dc.contractSig));
    PiecesKept(p4, StoreU64Be(dc.ciphers));
    PiecesKept(p5, [dc.formatSel]);
    PiecesKept(p6, dc.pad);
    assert p1[0..8] == p1;
    assert Encoded(dc) == p6 + dc.pad;
  }

  // What is appended leaves the pieces before it as they are.
  lemma PiecesKept(p: Bytes, x: Bytes)
    ensures forall i, j {:trigger (p + x)[i..j]} :: 0 <= i <= j <= |p| ==> (p + x)[i..j] == p[i..j]
    ensures (p + x)[|p|..|p| + |x|] == x
  {
  }

  method Copy(dst: array<bv8>, at: nat, src: Bytes)
    requires at + |src| <= dst.Length
    modifies dst
    ensures dst[..at + |src|] == old(dst[..at]) + src
    ensures dst[at + |src|..] == old(dst[at + |src|..])
  {
    for i := 0 to |src|
      invariant dst[..at + i] == old(dst[..at]) + src[..i] && dst[at + i..] == old(dst[at + i..])
    {
      dst[at + i] := src[i];
      assert dst[..at + i + 1] == dst[..at + i] + [src[i]];
    }
  }

  method DcEncode(out: array<bv8>, dc: Contract)
    requires out.Length == DC_WIRE_LEN && WellFormed(dc)
    modifies out
    ensures out[..] == Encoded(dc)
  {
    hide StoreU64Be;
    assert out[..0] == [];
    Copy(out, 0, StoreU64Be(dc.salt));
    Copy(out, 8, dc.sig);
    Copy(out, 24, dc.symKey128);
    Copy(out, 40, StoreU64Be(dc.contractSig));
    Copy(out, 48, StoreU64Be(dc.ciphers));
    out[56] := dc.formatSel;
    assert out[..57] == out[..56] + [dc.formatSel];
    Copy(out, 57, dc.pad);
    assert out[..64] == out[..];
  }

  method DcDecode(src: array<bv8>) returns (dc: Contract)
    requires src.Length == DC_WIRE_LEN
    ensures dc == Decoded(src[..]) && Encoded(dc) == src[..]
  {
    hide LoadU64Be, Encoded;
    LayoutRoundTrip(Decoded(src[..]), src[..]);
    dc := Contract(LoadU64Be(src[0..8]), src[8..24], src[24..40], LoadU64Be(src[40..48]), LoadU64Be(src[48..56]),
      src[56], src[57..64]);
  }

  // ---- Bytes as blocks of a little-endian machine ----

  function Reversed8(b: Bytes): (r: Bytes)
    requires |b| == 8
    ensures |r| == 8
  {
    [b[7], b[6], b[5], b[4], b[3], b[2], b[1], b[0]]
  }

  function ToBlock(b: Bytes): Block
    requires |b| == 16
  {
    Block(LoadU64Be(Reversed8(b[..8])), LoadU64Be(Reversed8(b[8..])))
  }

  function FromBlock(x: Block): (b: Bytes)
    ensures |b| == 16
  {
    Reversed8(StoreU64Be(x.lo)) + Reversed8(StoreU64Be(x.hi))
  }

  // Blocks are little-endian: the last byte is the highest one.
  lemma BlockIsLittleEndian(b: Bytes)
    requires |b| == 16
    ensures ToBlock(b).lo == NumberOf(Reversed8(b[..8])) && ToBlock(b).hi == NumberOf(Reversed8(b[8..]))
  {
    hide LoadU64Be, NumberOf, Reversed8;
    LoadIsBigEndian(Reversed8(b[..8]));
    LoadIsBigEndian(Reversed8(b[8..]));
  }

  lemma ReversedTwice(b: Bytes)
    requires |b| == 8
    ensures Reversed8(Reversed8(b)) == b
  {
  }

  lemma BlockRoundTrip(x: Block, b: Bytes)
    requires |b| == 16
    ensures ToBlock(FromBlock(x)) == x && FromBlock(ToBlock(b)) == b
  {
    hide StoreU64Be, LoadU64Be, Reversed8;
    ReversedTwice(StoreU64Be(x.lo));
    ReversedTwice(StoreU64Be(x.hi));
    ReversedTwice(b[..8]);
    ReversedTwice(b[8..]);
    BeRoundTrip(x.lo, Reversed8(b[..8]));
    BeRoundTrip(x.hi, Reversed8(b[8..]));
    assert FromBlock(x)[..8] == Reversed8(StoreU64Be(x.lo)) && FromBlock(x)[8..] == Reversed8(StoreU64Be(x.hi));
    assert b == b[..8] + b[8..];
  }

  function Blocks(b: Bytes): (r: seq<Block>)
    requires |b| % 16 == 0
    ensures |r| == |b| / 16
  {
    if b == [] then [] else Blocks(b[..|b| - 16]) + [ToBlock(b[|b| - 16..])]
  }

  function Flat(x: seq<Block>): (b: Bytes)
    ensures |b| == 16 * |x|
  {
    if x == [] then [] else Flat(x[..|x| - 1]) + FromBlock(x[|x| - 1])
  }

  lemma BlocksGrow(b: Bytes, c: Bytes)
    requires |b| % 16 == 0 && |c| == 16
    ensures Blocks(b + c) == Blocks(b) + [ToBlock(c)]
  {
    hide ToBlock;
    assert (b + c)[..|b|] == b && (b + c)[|b|..] == c;
  }

  lemma {:induction false} BlocksOfFlat(x: seq<Block>)
    ensures Blocks(Flat(x)) == x
  {
    hide ToBlock, FromBlock, Blocks;
    if x == [] {
      EmptyBlocks();
    } else {
      var init, last := x[..|x| - 1], x[|x| - 1];
      BlocksOfFlat(init);
      BlockRoundTrip(last, FromBlock(last));
      BlocksGrow(Flat(init), FromBlock(last));
      assert x == init + [last];
    }
  }

  lemma EmptyBlocks()
    ensures Blocks([]) == []
  {
  }

  lemma {:induction false} FlatOfBlocks(b: Bytes)
    requires |b| % 16 == 0
    ensures Flat(Blocks(b)) == b
  {
    hide ToBlock, FromBlock;
    if b != [] {
      var x := Blocks(b);
      FlatOfBlocks(b[..|b| - 16]);
      BlockRoundTrip(x[|x| - 1], b[|b| - 16..]);
      assert x[..|x| - 1] == Blocks(b[..|b| - 16]);
      assert b == b[..|b| - 16] + b[|b| - 16..];
    }
  }

  // ---- The file ----

  ghost function FileLines(kemDc: Bytes, msgDc: Bytes, ptSha: Bytes): (lines: seq<string>)
    ensures |lines| == 5
  {
    ["KEM=ML-KEM-512", "CIPHER=SIMON-128", "KEM_DC=" + Hex(kemDc), "MSG_DC=" + Hex(msgDc), "PT_SHA256=" + Hex(ptSha)]
  }

  ghost function FileText(kemDc: Bytes, msgDc: Bytes, ptSha: Bytes): string {
    JoinLines(FileLines(kemDc, msgDc, ptSha))
  }

  method WriteCombinedFile(kemDc: Bytes, msgDc: Bytes, ptSha: Bytes) returns (text: string)
    ensures text == FileText(kemDc, msgDc, ptSha)
  {
    hide Hex;
    var kemDcHex := BytesToHex(kemDc);
    var msgDcHex := BytesToHex(msgDc);
    var hashHex := BytesToHex(ptSha);
    ghost var lines := FileLines(kemDc, msgDc, ptSha);
    text := "";
    assert JoinLines(lines[..0]) == "";
    text := WriteLine(text, "KEM=ML-KEM-512", lines, 0);
    text := WriteLine(text, "CIPHER=SIMON-128", lines, 1);
    text := WriteLine(text, "KEM_DC=" + kemDcHex, lines, 2);
    text := WriteLine(text, "MSG_DC=" + msgDcHex, lines, 3);
    text := WriteLine(text, "PT_SHA256=" + hashHex, lines, 4);
    assert lines[..5] == lines;
  }

  method WriteLine(text: string, line: string, ghost lines: seq<string>, ghost i: nat) returns (longer: string)
    requires i < |lines| && lines[i] == line && text == JoinLines(lines[..i])
    ensures longer == JoinLines(lines[..i + 1])
  {
    LineAppended(lines[..i], line);
    assert lines[..i + 1] == lines[..i] + [line];
    longer := text + (line + "\n");
  }

  lemma {:induction false} LineAppended(lines: seq<string>, line: string)
    ensures JoinLines(lines + [line]) == JoinLines(lines) + (line + "\n")
  {
    var all := lines + [line];
    if lines == [] {
      assert all == [line] && [line][1..] == [];
    } else {
      LineAppended(lines[1..], line);
      assert all[1..] == lines[1..] + [line];
    }
  }

  // ---- Writing and checking a contract ----

  datatype Outcome =
    | Accepted(dc: Contract) | MissingFields | BadHex | BadLengths | BadKem | HashMismatch | BadSignature

  // The 68 round keys of SIMON 128/128 for the key whose low word comes first.
  ghost function Keys(k: Block): seq<Word> {
    seq(68, i requires 0 <= i < 68 => KeyWord(7, [k.lo, k.hi], i))
  }

  // The key's low word comes first.
  lemma KeysStart(k: Block)
    ensures |Keys(k)| == 68 && Keys(k)[0] == k.lo && Keys(k)[1] == k.hi
  {
    hide NextKey;
    Simon128Facts();
    KeyWordStarts(7, [k.lo, k.hi], 0);
    KeyWordStarts(7, [k.lo, k.hi], 1);
  }

  ghost function Plaintext(k: Block, msg: Bytes): (pt: Bytes)
    requires |msg| == DC_WIRE_LEN
    ensures |pt| == DC_WIRE_LEN
  {
    Flat(Unchained(Keys(k), Blocks(msg)))
  }

  // A file that carries the contract enciphered under the key.
  ghost predicate Carries(text: string, dc: Contract, kemDc: Bytes, k: Block, sha: Bytes -> Bytes)
    requires WellFormed(dc)
  {
    exists c :: IsChain(Keys(k), Blocks(Encoded(dc)), c) && text == FileText(kemDc, Flat(c), sha(Encoded(dc)))
  }

  ghost function CheckedMessage(msg: Bytes, hash: Bytes, k: Block, sha: Bytes -> Bytes): Outcome
    requires |msg| == DC_WIRE_LEN
  {
    var pt := Plaintext(k, msg);
    if sha(pt) != hash then HashMismatch
    else if Decoded(pt).sig != SIG then BadSignature
    else Accepted(Decoded(pt))
  }

  ghost function CheckedFields(kemDc: Option<Bytes>, msgDc: Option<Bytes>, hash: Option<Bytes>,
                               decapsulate: Bytes -> Option<Block>, sha: Bytes -> Bytes): Outcome
  {
    if kemDc.None? || msgDc.None? || hash.None? then BadHex
    else if |msgDc.value| != DC_WIRE_LEN || |hash.value| != 32 then BadLengths
    else if decapsulate(kemDc.value).None? then BadKem
    else CheckedMessage(msgDc.value, hash.value, decapsulate(kemDc.value).value, sha)
  }

  ghost function Checked(text: string, decapsulate: Bytes -> Option<Block>, sha: Bytes -> Bytes): Outcome {
    var kem, msg, hash := Lookup(text, "KEM_DC"), Lookup(text, "MSG_DC"), Lookup(text, "PT_SHA256");
    if kem.None? || msg.None? || hash.None? then MissingFields
    else CheckedFields(HexValue(kem.value), HexValue(msg.value), HexValue(hash.value), decapsulate, sha)
  }

  // ---- What each outcome means ----

  // The bytes that the first line with a key stands for.
  ghost predicate Field(text: string, key: string, b: Bytes) {
    Lookup(text, key).Some? && HexValue(Lookup(text, key).value) == Some(b)
  }

  ghost predicate Fields(text: string, kemDc: Bytes, msgDc: Bytes, hash: Bytes) {
    Field(text, "KEM_DC", kemDc) && Field(text, "MSG_DC", msgDc) && Field(text, "PT_SHA256", hash)
  }

  ghost predicate Found(text: string) {
    Lookup(text, "KEM_DC").Some? && Lookup(text, "MSG_DC").Some? && Lookup(text, "PT_SHA256").Some?
  }

  // The message is the enciphered text under the key in the file, and the hash is as long as it must be.
  ghost predicate Enciphers(text: string, pt: Bytes, hash: Bytes, decapsulate: Bytes -> Option<Block>)
    requires |pt| == DC_WIRE_LEN
  {
    exists kemDc, msgDc, k ::
      && Fields(text, kemDc, msgDc, hash) && |msgDc| == DC_WIRE_LEN && |hash| == 32
      && decapsulate(kemDc) == Some(k) && IsChain(Keys(k), Blocks(pt), Blocks(msgDc))
  }

  // The text carries the contract, and its hash.
  ghost predicate HoldsFor(text: string, dc: Contract, decapsulate: Bytes -> Option<Block>, sha: Bytes -> Bytes)
    requires WellFormed(dc)
  {
    Enciphers(text, Encoded(dc), sha(Encoded(dc)), decapsulate)
  }

  ghost predicate Meaning(text: string, o: Outcome, decapsulate: Bytes -> Option<Block>, sha: Bytes -> Bytes) {
    match o
    case MissingFields => !Found(text)
    case BadHex => Found(text) && forall kemDc, msgDc, hash :: !Fields(text, kemDc, msgDc, hash)
    case BadLengths => exists kemDc, msgDc, hash ::
      Fields(text, kemDc, msgDc, hash) && (|msgDc| != 64 || |hash| != 32)
    case BadKem => exists kemDc, msgDc, hash ::
      Fields(text, kemDc, msgDc, hash) && |msgDc| == 64 && |hash| == 32 && decapsulate(kemDc) == None
    case HashMismatch => exists pt, hash :: |pt| == 64 && Enciphers(text, pt, hash, decapsulate) && sha(pt) != hash
    case BadSignature => exists dc :: WellFormed(dc) && dc.sig != SIG && HoldsFor(text, dc, decapsulate, sha)
    case Accepted(dc) => WellFormed(dc) && dc.sig == SIG && HoldsFor(text, dc, decapsulate, sha)
  }

  lemma ChainBytes(k: Block, pt: Bytes, msg: Bytes)
    requires |pt| == |msg| == DC_WIRE_LEN
    ensures IsChain(Keys(k), Blocks(pt), Blocks(msg)) <==> pt == Plaintext(k, msg)
  {
    hide Blocks, Flat, Keys, IsChain, Unchained;
    var keys, c := Keys(k), Blocks(msg);
    FlatOfBlocks(pt);
    BlocksOfFlat(Unchained(keys, c));
    UnchainedIsChain(keys, c);
    if IsChain(keys, Blocks(pt), c) {
      ChainUndone(keys, Blocks(pt), c);
    }
  }

  lemma EnciphersExactly(text: string, pt: Bytes, kemDc: Bytes, msgDc: Bytes, hash: Bytes, h: Bytes,
                         decapsulate: Bytes -> Option<Block>)
    requires |pt| == DC_WIRE_LEN && Fields(text, kemDc, msgDc, hash)
    ensures Enciphers(text, pt, h, decapsulate) <==>
      && h == hash && |msgDc| == DC_WIRE_LEN && |hash| == 32 && decapsulate(kemDc).Some?
      && pt == Plaintext(decapsulate(kemDc).value, msgDc)
  {
    hide Lookup, HexValue, Blocks, Keys, IsChain, Plaintext;
    if |msgDc| == DC_WIRE_LEN && decapsulate(kemDc).Some? {
      ChainBytes(decapsulate(kemDc).value, pt, msgDc);
    }
    if Enciphers(text, pt, h, decapsulate) {
      var kem', msg', k :| Fields(text, kem', msg', h) && |msg'| == DC_WIRE_LEN && |h| == 32
        && decapsulate(kem') == Some(k) && IsChain(Keys(k), Blocks(pt), Blocks(msg'));
      assert kem' == kemDc && msg' == msgDc && h == hash;
    }
  }

  lemma EnciphersFields(text: string, pt: Bytes, h: Bytes, decapsulate: Bytes -> Option<Block>)
    requires |pt| == DC_WIRE_LEN && Enciphers(text, pt, h, decapsulate)
    ensures exists kemDc, msgDc, hash :: Fields(text, kemDc, msgDc, hash)
  {
  }

  lemma FoundOrNot(text: string, decapsulate: Bytes -> Option<Block>, sha: Bytes -> Bytes)
    ensures !Found(text) ==> Checked(text, decapsulate, sha) == MissingFields
    ensures Found(text) && (forall kemDc, msgDc, hash :: !Fields(text, kemDc, msgDc, hash)) ==>
      Checked(text, decapsulate, sha) == BadHex
    ensures (exists kemDc, msgDc, hash :: Fields(text, kemDc, msgDc, hash)) ==> Found(text)
  {
    hide Lookup, HexValue, CheckedFields;
    if Found(text) {
      var a, b, c := HexValue(Lookup(text, "KEM_DC").value), HexValue(Lookup(text, "MSG_DC").value),
        HexValue(Lookup(text, "PT_SHA256").value);
      if a.Some? && b.Some? && c.Some? {
        assert Fields(text, a.value, b.value, c.value);
      } else {
        NoHex(a, b, c, decapsulate, sha);
      }
    }
  }

  lemma NoHex(a: Option<Bytes>, b: Option<Bytes>, c: Option<Bytes>, decapsulate: Bytes -> Option<Block>,
              sha: Bytes -> Bytes)
    requires a.None? || b.None? || c.None?
    ensures CheckedFields(a, b, c, decapsulate, sha) == BadHex
  {
  }

  lemma OutcomeWithout(text: string, o: Outcome, decapsulate: Bytes -> Option<Block>, sha: Bytes -> Bytes)
    requires forall kemDc, msgDc, hash :: !Fields(text, kemDc, msgDc, hash)
    ensures Checked(text, decapsulate, sha) == o <==> Meaning(text, o, decapsulate, sha)
  {
    hide Found, Fields, Checked, Enciphers, Encoded;
    FoundOrNot(text, decapsulate, sha);
    forall pt, h | |pt| == DC_WIRE_LEN ensures !Enciphers(text, pt, h, decapsulate) {
      if Enciphers(text, pt, h, decapsulate) {
        EnciphersFields(text, pt, h, decapsulate);
      }
    }
  }

  lemma CheckedIs(text: string, kemDc: Bytes, msgDc: Bytes, hash: Bytes, decapsulate: Bytes -> Option<Block>,
                  sha: Bytes -> Bytes)
    requires Fields(text, kemDc, msgDc, hash)
    ensures Found(text) && Checked(text, decapsulate, sha)
      == CheckedFields(Some(kemDc), Some(msgDc), Some(hash), decapsulate, sha)
    ensures forall a, b, c :: Fields(text, a, b, c) ==> a == kemDc && b == msgDc && c == hash
  {
    hide Lookup, HexValue, CheckedFields;
  }

  // With the three fields, what the later tests say.
  lemma OutcomeOfFields(text: string, o: Outcome, kemDc: Bytes, msgDc: Bytes, hash: Bytes,
                        decapsulate: Bytes -> Option<Block>, sha: Bytes -> Bytes)
    requires Fields(text, kemDc, msgDc, hash)
    ensures Checked(text, decapsulate, sha) == o <==> Meaning(text, o, decapsulate, sha)
  {
    hide Found, Fields, Checked, Enciphers, Encoded, Decoded, Plaintext;
    CheckedIs(text, kemDc, msgDc, hash, decapsulate, sha);
    forall pt, h | |pt| == DC_WIRE_LEN
      ensures Enciphers(text, pt, h, decapsulate) <==>
        && h == hash && |msgDc| == DC_WIRE_LEN && |hash| == 32 && decapsulate(kemDc).Some?
        && pt == Plaintext(decapsulate(kemDc).value, msgDc)
    {
      EnciphersExactly(text, pt, kemDc, msgDc, hash, h, decapsulate);
    }
    if |msgDc| == DC_WIRE_LEN && |hash| == 32 && decapsulate(kemDc).Some? {
      var pt := Plaintext(decapsulate(kemDc).value, msgDc);
      assert Enciphers(text, pt, hash, decapsulate);
      forall dc | WellFormed(dc) ensures Encoded(dc) == pt <==> dc == Decoded(pt) {
        LayoutRoundTrip(dc, pt);
      }
      assert Encoded(Decoded(pt)) == pt;
    }
  }

  // The check returns an outcome exactly when that is what holds of the text.
  lemma OutcomeExactly(text: string, o: Outcome, decapsulate: Bytes -> Option<Block>, sha: Bytes -> Bytes)
    ensures Checked(text, decapsulate, sha) == o <==> Meaning(text, o, decapsulate, sha)
  {
    hide Checked, Meaning, Fields;
    if exists kemDc, msgDc, hash :: Fields(text, kemDc, msgDc, hash) {
      var kemDc, msgDc, hash :| Fields(text, kemDc, msgDc, hash);
      OutcomeOfFields(text, o, kemDc, msgDc, hash, decapsulate, sha);
    } else {
      OutcomeWithout(text, o, decapsulate, sha);
    }
  }

  // ---- What the check finds in a written file ----

  lemma HexIsOneLine(b: Bytes)
    ensures OneLine(Hex(b))
  {
    HexRoundTrip(b);
  }

  // The field of a written file: the value of line i of the five.
  lemma FieldOfFile(lines: seq<string>, key: string, i: nat, b: Bytes)
    requires i < |lines| && (forall j :: 0 <= j < |lines| ==> OneLine(lines[j])) && (forall j :: 0 <= j < i ==>
      !IsEntry(lines[j], key))
    requires lines[i] == key + "=" + Hex(b) && b != []
    ensures Lookup(JoinLines(lines), key).Some? && HexValue(Lookup(JoinLines(lines), key).value) == Some(b)
  {
    hide Hex, Lookup, HexValue, OneLine;
    var rest := "\n" + JoinLines(lines[i + 1..]);
    assert IsEntry(lines[i], key) by {
      assert lines[i][..|key|] == key;
    }
    LookupInLines(lines, key, i);
    assert lines[i][|key| + 1..] == Hex(b);
    HexValueOfLine(b, "", rest);
    assert Hex(b) + "" + rest == Hex(b) + "\n" + JoinLines(lines[i + 1..]);
  }

  lemma EntryLine(prefix: string, key: string, b: Bytes)
    requires prefix == key + "=" && OneLine(prefix)
    ensures OneLine(prefix + Hex(b)) && prefix + Hex(b) == key + "=" + Hex(b)
  {
    HexIsOneLine(b);
  }

  lemma FileLinesAreLines(kemDc: Bytes, msgDc: Bytes, ptSha: Bytes)
    ensures var lines := FileLines(kemDc, msgDc, ptSha);
            && (forall j :: 0 <= j < 5 ==> OneLine(lines[j]))
            && lines[2] == "KEM_DC" + "=" + Hex(kemDc) && lines[3] == "MSG_DC" + "=" + Hex(msgDc)
            && lines[4] == "PT_SHA256" + "=" + Hex(ptSha)
  {
    hide Hex;
    EntryLine("KEM_DC=", "KEM_DC", kemDc);
    EntryLine("MSG_DC=", "MSG_DC", msgDc);
    EntryLine("PT_SHA256=", "PT_SHA256", ptSha);
  }

  lemma OtherStart(line: string, key: string, i: nat)
    requires i < |key| && i < |line| && line[i] != key[i]
    ensures !IsEntry(line, key)
  {
    if |line| > |key| + 1 {
      assert line[..|key|][i] == line[i];
    }
  }

  // The lines of a file before the one with the key start otherwise.
  lemma EarlierLinesDiffer(kemDc: Bytes, msgDc: Bytes, ptSha: Bytes)
    ensures var lines := FileLines(kemDc, msgDc, ptSha);
            && (forall j :: 0 <= j < 2 ==> !IsEntry(lines[j], "KEM_DC"))
            && (forall j :: 0 <= j < 3 ==> !IsEntry(lines[j], "MSG_DC"))
            && (forall j :: 0 <= j < 4 ==> !IsEntry(lines[j], "PT_SHA256"))
  {
    hide Hex, IsEntry;
    var lines := FileLines(kemDc, msgDc, ptSha);
    OtherStart(lines[0], "KEM_DC", 3);
    OtherStart(lines[1], "KEM_DC", 0);
    OtherStart(lines[0], "MSG_DC", 0);
    OtherStart(lines[1], "MSG_DC", 0);
    OtherStart(lines[2], "MSG_DC", 0);
    OtherStart(lines[0], "PT_SHA256", 0);
    OtherStart(lines[1], "PT_SHA256", 0);
    OtherStart(lines[2], "PT_SHA256", 0);
    OtherStart(lines[3], "PT_SHA256", 0);
  }

  // The file written gives its three byte strings back.
  lemma FieldsOfFile(kemDc: Bytes, msgDc: Bytes, ptSha: Bytes)
    requires kemDc != [] && msgDc != [] && ptSha != []
    ensures var text := FileText(kemDc, msgDc, ptSha);
            && Lookup(text, "KEM_DC").Some? && HexValue(Lookup(text, "KEM_DC").value) == Some(kemDc)
            && Lookup(text, "MSG_DC").Some? && HexValue(Lookup(text, "MSG_DC").value) == Some(msgDc)
            && Lookup(text, "PT_SHA256").Some? && HexValue(Lookup(text, "PT_SHA256").value) == Some(ptSha)
  {
    hide Hex, Lookup, HexValue, JoinLines, IsEntry, OneLine, FileLines;
    var lines := FileLines(kemDc, msgDc, ptSha);
    FileLinesAreLines(kemDc, msgDc, ptSha);
    EarlierLinesDiffer(kemDc, msgDc, ptSha);
    FieldOfFile(lines, "KEM_DC", 2, kemDc);
    FieldOfFile(lines, "MSG_DC", 3, msgDc);
    FieldOfFile(lines, "PT_SHA256", 4, ptSha);
  }

  // A written contract is accepted and is the one that was written, for every key, contract with
  // the header signature, and hash of 32 bytes.
  lemma PipelineRoundTrip(text: string, dc: Contract, kemDc: Bytes, k: Block, decapsulate: Bytes -> Option<Block>,
    sha: Bytes -> Bytes)
    requires WellFormed(dc) && dc.sig == SIG && kemDc != []
    requires decapsulate(kemDc) == Some(k) && |sha(Encoded(dc))| == 32
    requires Carries(text, dc, kemDc, k, sha)
    ensures Checked(text, decapsulate, sha) == Accepted(dc)
  {
    hide Lookup, HexValue, FileText, Encoded, Decoded, Blocks, Flat, IsChain, Unchained, Keys;
    var pt := Encoded(dc);
    var c :| IsChain(Keys(k), Blocks(pt), c) && text == FileText(kemDc, Flat(c), sha(pt));
    ChainLength(Keys(k), Blocks(pt), c);
    FieldsOfFile(kemDc, Flat(c), sha(pt));
    BlocksOfFlat(c);
    ChainUndone(Keys(k), Blocks(pt), c);
    FlatOfBlocks(pt);
    LayoutRoundTrip(dc, pt);
  }

  lemma ChainLength(keys: seq<Word>, p: seq<Block>, c: seq<Block>)
    requires IsChain(keys, p, c)
    ensures |c| == |p|
  {
    hide *;
    ChainUndone(keys, p, c);
  }

  // A changed message is accepted only when it deciphers to another contract with the same hash.
  lemma TamperingNeedsCollision(msg: Bytes, msg': Bytes, hash: Bytes, k: Block, sha: Bytes -> Bytes, dc: Contract,
    dc': Contract)
    requires |msg| == |msg'| == DC_WIRE_LEN && msg != msg'
    requires CheckedMessage(msg, hash, k, sha) == Accepted(dc) && CheckedMessage(msg', hash, k, sha) == Accepted(dc')
    ensures WellFormed(dc) && WellFormed(dc') && dc != dc' && sha(Encoded(dc)) == sha(Encoded(dc')) == hash
  {
    hide Encoded, Decoded, Blocks, Flat, Unchained, Keys, IsChain;
    var pt, pt' := Plaintext(k, msg), Plaintext(k, msg');
    LayoutRoundTrip(Decoded(pt), pt);
    LayoutRoundTrip(Decoded(pt'), pt');
    DecipheringIsInjective(k, msg, msg');
  }

  lemma DecipheringIsInjective(k: Block, msg: Bytes, msg': Bytes)
    requires |msg| == |msg'| == DC_WIRE_LEN && msg != msg'
    ensures Plaintext(k, msg) != Plaintext(k, msg')
  {
    hide Blocks, Flat, Keys, IsChain, Unchained;
    var x, x' := Unchained(Keys(k), Blocks(msg)), Unchained(Keys(k), Blocks(msg'));
    BlocksOfFlat(x);
    BlocksOfFlat(x');
    FlatOfBlocks(msg);
    FlatOfBlocks(msg');
    UnchainedIsInjective(Keys(k), Blocks(msg), Blocks(msg'));
  }

  // ---- The program ----

  method KeyExpand(k: Block) returns (schedule: array<Word>)
    ensures fresh(schedule) && schedule.Length == 72 && schedule[..68] == Keys(k)
  {
    hide KeyWord, KeyWords, RoundCount;
    schedule := new Word[72];
    Simon128Facts();
    var code := SimonInit(7, [k.lo, k.hi], schedule);
  }

  lemma Simon128Facts()
    ensures KeyWords(7) == 2 && RoundCount(7) == 68
  {
    assert BLOCK_SIZES[7] >> 1 == 64;
  }

  method Encipher(pt: Bytes, schedule: array<Word>, ghost k: Block) returns (msg: Bytes, ghost c: seq<Block>)
    requires |pt| % 16 == 0 && schedule.Length == 72 && schedule[..68] == Keys(k)
    ensures IsChain(Keys(k), Blocks(pt), c) && msg == Flat(c)
  {
    hide Blocks, Flat, IsChain, Keys;
    var blocks := Blocks(pt);
    var src := new Block[|blocks|](i requires 0 <= i < |blocks| => blocks[i]);
    var dst := new Block[|blocks|](_ => ZERO);
    assert src[..] == blocks;
    SimonEncrypt(68, schedule, src, dst);
    c := dst[..];
    msg := Flat(dst[..]);
  }

  method Decipher(msg: Bytes, schedule: array<Word>, ghost k: Block) returns (pt: Bytes)
    requires |msg| == DC_WIRE_LEN && schedule.Length == 72 && schedule[..68] == Keys(k)
    ensures pt == Plaintext(k, msg)
  {
    hide Blocks, Flat, Unchained, Keys;
    var blocks := Blocks(msg);
    var src := new Block[|blocks|](i requires 0 <= i < |blocks| => blocks[i]);
    var dst := new Block[|blocks|](_ => ZERO);
    assert src[..] == blocks;
    SimonDecrypt(68, schedule, src, dst);
    pt := Flat(dst[..]);
  }

  method DcGen(dc: Contract, kemDc: Bytes, k: Block, sha: Bytes -> Bytes) returns (text: string)
    requires WellFormed(dc)
    ensures Carries(text, dc, kemDc, k, sha)
  {
    hide Encoded, Blocks, Flat, IsChain, Keys, FileText;
    var schedule := KeyExpand(k);
    var buffer := new bv8[64];
    DcEncode(buffer, dc);
    var pt := buffer[..];
    var msgDc, c := Encipher(pt, schedule, k);
    text := WriteCombinedFile(kemDc, msgDc, sha(pt));
  }

  method DcChk(text: string, decapsulate: Bytes -> Option<Block>, sha: Bytes -> Bytes) returns (r: Outcome)
    ensures r == Checked(text, decapsulate, sha)
    ensures forall o :: r == o <==> Meaning(text, o, decapsulate, sha)
  {
    hide Lookup, HexValue, CheckedFields, Meaning;
    forall o ensures Checked(text, decapsulate, sha) == o <==> Meaning(text, o, decapsulate, sha) {
      OutcomeExactly(text, o, decapsulate, sha);
    }
    var kem := FindKv(text, "KEM_DC");
    var msg := FindKv(text, "MSG_DC");
    var hash := FindKv(text, "PT_SHA256");
    if kem.None? || msg.None? || hash.None? {
      return MissingFields;
    }
    var kemDc := HexToBytes(text[kem.value..]);
    var msgDc := HexToBytes(text[msg.value..]);
    var hashB := HexToBytes(text[hash.value..]);
    r := CheckFields(kemDc, msgDc, hashB, decapsulate, sha);
  }

  method CheckFields(kemDc: Option<Bytes>, msgDc: Option<Bytes>, hash: Option<Bytes>,
                     decapsulate: Bytes -> Option<Block>, sha: Bytes -> Bytes)
    returns (r: Outcome)
    ensures r == CheckedFields(kemDc, msgDc, hash, decapsulate, sha)
  {
    hide Plaintext, Decoded, Keys;
    if kemDc.None? || msgDc.None? || hash.None? {
      return BadHex;
    }
    if |msgDc.value| != DC_WIRE_LEN || |hash.value| != 32 {
      return BadLengths;
    }
    var k := decapsulate(kemDc.value);
    if k.None? {
      return BadKem;
    }
    var schedule := KeyExpand(k.value);
    var pt := Decipher(msgDc.value, schedule, k.value);
    if sha(pt) != hash.value {
      return HashMismatch;
    }
    var buffer := new bv8[64](i requires 0 <= i < 64 => pt[i]);
    assert buffer[..] == pt;
    var dc := DcDecode(buffer);
    if dc.sig != SIG {
      return BadSignature;
    }
    r := Accepted(dc);
  }
}
