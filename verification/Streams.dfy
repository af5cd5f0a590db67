/** Byte streams: little-endian words, hashes (src/node_hash/mod.rs) and the trees of a
    `MemForest` (src/mem_forest/mod.rs) as bytes. */
module Streams {
  import opened Bits
  import opened Positions
  import opened Forest

  type Byte = x: nat | x < 256

  class Writer {
    var out: seq<Byte>

    constructor ()
      ensures out == []
    {
      out := [];
    }

    method WriteAll(bytes: seq<Byte>)
      modifies this
      ensures out == old(out) + bytes
    {
      out := out + bytes;
    }
  }

  class Reader {
    var rest: seq<Byte>

    constructor (bytes: seq<Byte>)
      ensures rest == bytes
    {
      rest := bytes;
    }

    /** `read_exact`: fails on a stream that is too short, of which then nothing is left. */
    method ReadExact(count: nat) returns (r: Option<seq<Byte>>)
      modifies this
      ensures r.Some? <==> count <= |old(rest)|
      ensures r.Some? ==> r.value == old(rest)[..count] && rest == old(rest)[count..]
      ensures |rest| <= |old(rest)|
    {
      if count <= |rest| {
        r := Some(rest[..count]);
        rest := rest[count..];
      } else {
        r := None;
        rest := [];
      }
    }
  }

  // ----- words -----

  function LittleEndian(x: nat, k: nat): (bytes: seq<Byte>)
    ensures |bytes| == k
  {
    if k == 0 then [] else [x % 256] + LittleEndian(x / 256, k - 1)
  }

  function FromLittleEndian(bytes: seq<Byte>): nat {
    if bytes == [] then 0 else bytes[0] + 256 * FromLittleEndian(bytes[1..])
  }

  /** What k bytes can hold. */
  function ByteRange(k: nat): (r: nat)
    ensures r >= 1
  {
    if k == 0 then 1 else 256 * ByteRange(k - 1)
  }

  /** The bytes come least significant first. */
  lemma {:induction false} ByteAt(x: nat, k: nat, i: nat)
    requires i < k
    ensures LittleEndian(x, k)[i] == Shr(x, 8 * i) % 256
    decreases k
  {
    hide Shr;
    if i == 0 {
      ShrZero(x);
    } else {
      ByteAt(x / 256, k - 1, i - 1);
      ShrByte(x);
      ShrCompose(x, 8, 8 * (i - 1));
    }
  }

  lemma ShrByte(x: nat)
    ensures Shr(x, 8) == x / 256
  {
    assert Shr(x, 4) == x / 16;
    assert Shr(x / 16, 4) == x / 16 / 16;
    ShrCompose(x, 4, 4);
  }

  lemma {:induction false} WordRoundTrip(x: nat, k: nat)
    requires x < ByteRange(k)
    ensures FromLittleEndian(LittleEndian(x, k)) == x
    decreases k
  {
    if k > 0 {
      WordRoundTrip(x / 256, k - 1);
      assert LittleEndian(x, k)[1..] == LittleEndian(x / 256, k - 1);
    }
  }

  lemma {:induction false} WordBound(bytes: seq<Byte>)
    ensures FromLittleEndian(bytes) < ByteRange(|bytes|)
  {
    if bytes != [] { WordBound(bytes[1..]); }
  }

  lemma EightBytes()
    ensures ByteRange(8) == WORD
  {
    assert ByteRange(2) == 65536;
    assert ByteRange(4) == 65536 * ByteRange(2);
    assert ByteRange(6) == 65536 * ByteRange(4);
    assert ByteRange(8) == 65536 * ByteRange(6);
  }

  function WordBytes(x: U64): (bytes: seq<Byte>)
    ensures |bytes| == 8
  {
    LittleEndian(x, 8)
  }

  /** What `to_le_bytes` gives. */
  lemma WordByte(x: U64)
    ensures forall i :: 0 <= i < 8 ==> WordBytes(x)[i] == Shr(x, 8 * i) % 256
  {
    hide LittleEndian, Shr;
    forall i | 0 <= i < 8 ensures WordBytes(x)[i] == Shr(x, 8 * i) % 256 { ByteAt(x, 8, i); }
  }

  method ReadWord(reader: Reader) returns (r: Option<U64>)
    modifies reader
    ensures |reader.rest| <= |old(reader.rest)| && (r.Some? <==> |old(reader.rest)| >= 8)
    ensures r.Some? ==> old(reader.rest) == WordBytes(r.value) + reader.rest
    ensures forall x: U64, after: seq<Byte> :: old(reader.rest) == WordBytes(x) + after ==>
            r == Some(x) && reader.rest == after
  {
    hide LittleEndian, FromLittleEndian, ByteRange, WordBytes;
    var was := reader.rest;
    var bytes := reader.ReadExact(8);
    if bytes.None? { return None; }
    WordBound(bytes.value);
    EightBytes();
    BytesBack(bytes.value);
    r := Some(FromLittleEndian(bytes.value));
    forall x: U64, after: seq<Byte> | was == WordBytes(x) + after ensures r == Some(x) && reader.rest == after {
      assert was[..8] == WordBytes(x) && was[8..] == after;
      WordBack(x);
    }
  }

  lemma BytesBack(bytes: seq<Byte>)
    requires |bytes| == 8 && FromLittleEndian(bytes) < WORD
    ensures WordBytes(FromLittleEndian(bytes)) == bytes
  {
    hide LittleEndian, FromLittleEndian;
    BytesRoundTrip(bytes);
  }

  lemma {:induction false} BytesRoundTrip(bytes: seq<Byte>)
    ensures LittleEndian(FromLittleEndian(bytes), |bytes|) == bytes
  {
    if bytes != [] {
      var x := FromLittleEndian(bytes);
      FirstByte(bytes[0], FromLittleEndian(bytes[1..]), x);
      BytesRoundTrip(bytes[1..]);
      assert LittleEndian(x, |bytes|) == [bytes[0]] + bytes[1..];
    }
  }

  lemma FirstByte(b: Byte, rest: nat, x: nat)
    requires x == b + 256 * rest
    ensures x % 256 == b && x / 256 == rest
  {
  }

  lemma WordBack(x: U64)
    ensures FromLittleEndian(WordBytes(x)) == x
  {
    hide LittleEndian, FromLittleEndian, ByteRange;
    EightBytes();
    WordRoundTrip(x, 8);
  }

  // ----- hashes -----

  /** How a digest is laid out in 32 bytes.  In the program a digest is these bytes. */
  datatype Digests = Digests(write: Hash -> seq<Byte>, read: seq<Byte> -> Hash)

  /** The digest survives being laid out. */
  ghost predicate Faithful(d: Digests, h: Hash) {
    h.Empty? || h.Placeholder? || (|d.write(h)| == 32 && d.read(d.write(h)) == h)
  }

  function HashBytes(d: Digests, h: Hash): seq<Byte> {
    match h
    case Empty => [0]
    case Placeholder => [1]
    case _ => [2] + d.write(h)
  }

  /** `BitcoinNodeHash::write` */
  method WriteHash(d: Digests, h: Hash, writer: Writer)
    modifies writer
    ensures writer.out == old(writer.out) + HashBytes(d, h)
  {
    match h
    case Empty => writer.WriteAll([0]);
    case Placeholder => writer.WriteAll([1]);
    case _ =>
      writer.WriteAll([2]);
      writer.WriteAll(d.write(h));
  }

  /** The stream begins with a known tag, and with a whole digest if one is to follow. */
  predicate HashStarts(bytes: seq<Byte>) {
    bytes != [] && (bytes[0] <= 1 || (bytes[0] == 2 && |bytes| >= 33))
  }

  /** `BitcoinNodeHash::read` */
  method ReadHash(d: Digests, reader: Reader) returns (r: Option<Hash>)
    modifies reader
    ensures |reader.rest| <= |old(reader.rest)| && (r.Some? ==> |reader.rest| < |old(reader.rest)|)
    ensures r.Some? <==> HashStarts(old(reader.rest))
    ensures r.Some? ==>
              var bytes := old(reader.rest);
              if bytes[0] == 0 then r.value == Empty && reader.rest == bytes[1..]
              else if bytes[0] == 1 then r.value == Placeholder && reader.rest == bytes[1..]
              else r.value == d.read(bytes[1..33]) && reader.rest == bytes[33..]
    ensures forall h: Hash, after: seq<Byte> :: Faithful(d, h) && old(reader.rest) == HashBytes(d, h) + after ==>
              r == Some(h) && reader.rest == after
  {
    ghost var was := reader.rest;
    var tag := reader.ReadExact(1);
    if tag.None? { return None; }
    match tag.value[0] {
      case 0 => r := Some(Empty);
      case 1 => r := Some(Placeholder);
      case 2 =>
        var digest := reader.ReadExact(32);
        if digest.None? {
          r := None;
        } else {
          assert was[1..][..32] == was[1..33] && was[1..][32..] == was[33..];
          r := Some(d.read(digest.value));
        }
      case _ => r := None;
    }
    forall h: Hash, after: seq<Byte> | Faithful(d, h) && was == HashBytes(d, h) + after
      ensures r == Some(h) && reader.rest == after
    {
      HashParts(d, h, after);
    }
  }

  lemma HashParts(d: Digests, h: Hash, after: seq<Byte>)
    requires Faithful(d, h)
    ensures var all := HashBytes(d, h) + after;
            match h
            case Empty => all[0] == 0 && all[1..] == after
            case Placeholder => all[0] == 1 && all[1..] == after
            case _ => all[0] == 2 && |all| >= 33 && all[1..][..32] == d.write(h) && all[1..][32..] == after
  {
  }

  // ----- trees -----

  /** What `write_one` writes for the node of a tree: its type, its hash, its children. */
  function TreeBytes(d: Digests, t: Tree): seq<Byte> {
    match t
    case Nil => WordBytes(0) + HashBytes(d, Empty)
    case Tip(id) => WordBytes(1) + HashBytes(d, LeafHash(id))
    case Fork(l, r) => WordBytes(0) + HashBytes(d, Merkle(t)) + TreeBytes(d, l) + TreeBytes(d, r)
  }

  /** Every hash in the tree survives being laid out. */
  ghost predicate FaithfulTree(d: Digests, t: Tree) {
    Faithful(d, Merkle(t)) && (t.Fork? ==> FaithfulTree(d, t.left) && FaithfulTree(d, t.right))
  }

  function TreesBytes(d: Digests, trees: seq<Tree>): seq<Byte> {
    if trees == [] then [] else TreeBytes(d, trees[0]) + TreesBytes(d, trees[1..])
  }

  /** The trees are written one after the other. */
  lemma {:induction false} TreesBytesConcat(d: Digests, a: seq<Tree>, b: seq<Tree>)
    ensures TreesBytes(d, []) == []
    ensures forall t: Tree :: TreesBytes(d, [t]) == TreeBytes(d, t)
    ensures TreesBytes(d, a + b) == TreesBytes(d, a) + TreesBytes(d, b)
    decreases a
  {
    hide TreeBytes;
    forall t: Tree ensures TreesBytes(d, [t]) == TreeBytes(d, t) { assert [t][1..] == []; }
    if a == [] {
      assert a + b == b;
    } else {
      assert (a + b)[1..] == a[1..] + b;
      TreesBytesConcat(d, a[1..], b);
    }
  }

  lemma HeadBytes(d: Digests, ty: U64, h: Hash, after: seq<Byte>)
    requires Faithful(d, h)
    ensures forall ty': U64, h': Hash, after': seq<Byte> ::
              Faithful(d, h') && WordBytes(ty) + HashBytes(d, h) + after == WordBytes(ty') + HashBytes(d, h') + after'
              ==> ty == ty' && h == h' && after == after'
  {
    hide WordBytes, HashBytes, Faithful;
    var all := WordBytes(ty) + HashBytes(d, h) + after;
    forall ty': U64, h': Hash, after': seq<Byte> | Faithful(d, h') && all == WordBytes(ty') + HashBytes(d, h') + after'
      ensures ty == ty' && h == h' && after == after'
    {
      assert all[..8] == WordBytes(ty) == WordBytes(ty');
      WordBack(ty);
      WordBack(ty');
      assert all[8..] == HashBytes(d, h) + after == HashBytes(d, h') + after';
      SameHash(d, h, h', after, after');
    }
  }

  lemma SameHash(d: Digests, h: Hash, h': Hash, after: seq<Byte>, after': seq<Byte>)
    requires Faithful(d, h) && Faithful(d, h') && HashBytes(d, h) + after == HashBytes(d, h') + after'
    ensures h == h' && after == after'
  {
    HashParts(d, h, after);
    HashParts(d, h', after');
  }

  /** What was written for a tree is self-delimiting: it cannot be read as another tree, whatever
      bytes follow. */
  lemma {:induction false} TreeBytesUnique(d: Digests, s: Tree, t: Tree, after: seq<Byte>, after': seq<Byte>)
    requires FaithfulTree(d, s) && FaithfulTree(d, t) && TreeBytes(d, s) + after == TreeBytes(d, t) + after'
    ensures s == t && after == after'
    decreases s
  {
    hide WordBytes, HashBytes, Faithful;
    SplitTree(d, s, after);
    SplitTree(d, t, after');
    HeadBytes(d, TypeWord(s), Merkle(s), ChildBytes(d, s) + after);
    if s.Fork? {
      assert ChildBytes(d, s) + after == TreeBytes(d, s.left) + (TreeBytes(d, s.right) + after);
      assert ChildBytes(d, t) + after' == TreeBytes(d, t.left) + (TreeBytes(d, t.right) + after');
      TreeBytesUnique(d, s.left, t.left, TreeBytes(d, s.right) + after, TreeBytes(d, t.right) + after');
      TreeBytesUnique(d, s.right, t.right, after, after');
    }
  }

  function TypeWord(t: Tree): U64 {
    if t.Tip? then 1 else 0
  }

  function ChildBytes(d: Digests, t: Tree): seq<Byte> {
    if t.Fork? then TreeBytes(d, t.left) + TreeBytes(d, t.right) else []
  }

  lemma SplitTree(d: Digests, t: Tree, after: seq<Byte>)
    ensures TreeBytes(d, t) + after == WordBytes(TypeWord(t)) + HashBytes(d, Merkle(t)) + (ChildBytes(d, t) + after)
  {
    hide WordBytes, HashBytes;
  }
}
