/** The output side of the checkpoint archive (FEBio/Archive.h): a tree of
    chunks, each written as a 4-byte ID, a 4-byte payload size and the
    payload. A branch's payload is the encodings of its children in the order
    they were added; a leaf holds one record, an array of records, or a
    length-prefixed string without terminator.

    Words are written in the byte order of the machine; this model writes
    them little-endian. The output file is a byte sequence. */
module ChunkArchive {

  newtype byte = x: int | 0 <= x < 256

  const WordRange := 0x1_0000_0000
  /** sizeof(unsigned int) and sizeof(int) */
  const WordSize := 4
  /** Bytes written before the payload: ID and size. */
  const HeaderSize := 8

  datatype Option<T> = None | Some(value: T)

  /** Payload of a leaf: one record of type T (OLeaf<T>), an array of
      records of `elemSize` bytes each (OLeaf<T*> and OLeaf<vector<T>>), or
      the characters of a C string (OLeaf<const char*>). */
  datatype LeafData =
    | Record(d: seq<byte>)
    | Records(elemSize: nat, items: seq<seq<byte>>)
    | Text(chars: seq<byte>)

  /** The chunk tree as a value. */
  datatype Chunk = Branch(id: int, children: seq<Chunk>) | Leaf(id: int, data: LeafData)

  // ------------------------------------------------------------- well-formed

  /** What the leaf constructors guarantee: an array leaf holds at least one
      record and all records have the element size; a string holds no NUL. */
  predicate LeafWellFormed(data: LeafData)
  {
    match data
    case Record(_) => true
    case Records(es, items) => |items| > 0 && forall k :: 0 <= k < |items| ==> |items[k]| == es
    case Text(chars) => 0 !in chars
  }

  ghost predicate WellFormed(c: Chunk)
    decreases c
  {
    && 0 <= c.id < WordRange
    && match c
       case Leaf(_, data) => LeafWellFormed(data)
       case Branch(_, cs) => forall i :: 0 <= i < |cs| ==> WellFormed(cs[i])
  }

  // ------------------------------------------------------------------- sizes

  /** Size() of a leaf: sizeof(T), sizeof(T)*n, or strlen + sizeof(int). */
  function LeafSize(data: LeafData): nat
  {
    match data
    case Record(d) => |d|
    case Records(es, items) => es * |items|
    case Text(chars) => |chars| + WordSize
  }

  /** Size() of a chunk: the payload length. */
  function SizeOf(c: Chunk): nat
    decreases c
  {
    match c
    case Leaf(_, data) => LeafSize(data)
    case Branch(_, cs) => SumSizes(cs)
  }

  /** A branch's Size(): each child's Size() plus its 8 header bytes. */
  function SumSizes(cs: seq<Chunk>): nat
    decreases cs
  {
    if cs == [] then 0 else SumSizes(cs[..|cs| - 1]) + SizeOf(cs[|cs| - 1]) + HeaderSize
  }

  // ---------------------------------------------------------------- encoding

  /** An unsigned int as four bytes, least significant first; a value out of
      range is reduced modulo 2^32 as the conversion to unsigned int does. */
  function Word(x: int): (w: seq<byte>)
    ensures |w| == WordSize
  {
    var v := x % WordRange;
    var q1 := v / 256;
    var q2 := q1 / 256;
    var q3 := q2 / 256;
    [(v % 256) as byte, (q1 % 256) as byte, (q2 % 256) as byte, (q3 % 256) as byte]
  }

  /** Reads an unsigned int back from its four bytes. */
  function ReadWord(w: seq<byte>): (x: nat)
    requires |w| >= WordSize
    ensures x < WordRange
  {
    w[0] as int + 256 * (w[1] as int + 256 * (w[2] as int + 256 * w[3] as int))
  }

  lemma WordRoundTrip(x: int)
    ensures ReadWord(Word(x)) == x % WordRange
  {
    var v := x % WordRange;
    var q1 := v / 256;
    var q2 := q1 / 256;
    var q3 := q2 / 256;
    assert q3 < 256;
    assert q2 == q2 % 256 + 256 * q3;
    assert q1 == q1 % 256 + 256 * q2;
    assert v == v % 256 + 256 * q1;
  }

  function Flatten(items: seq<seq<byte>>): (b: seq<byte>)
  {
    if items == [] then [] else Flatten(items[..|items| - 1]) + items[|items| - 1]
  }

  /** The payload bytes of a leaf: the record, the records one after the
      other, or the string length l = Size()-4 followed by l characters. */
  function LeafPayload(data: LeafData): seq<byte>
  {
    match data
    case Record(d) => d
    case Records(_, items) => Flatten(items)
    case Text(chars) => Word(LeafSize(data) - WordSize) + chars
  }

  /** The bytes Write emits for a chunk: header, then payload. */
  function Encode(c: Chunk): seq<byte>
    decreases c, 1
  {
    Word(c.id) + Word(SizeOf(c)) + Payload(c)
  }

  function Payload(c: Chunk): seq<byte>
    decreases c, 0
  {
    match c
    case Leaf(_, data) => LeafPayload(data)
    case Branch(_, cs) => EncodeAll(cs)
  }

  /** The encodings of a list of chunks, one after the other. */
  function EncodeAll(cs: seq<Chunk>): seq<byte>
    decreases cs
  {
    if cs == [] then [] else EncodeAll(cs[..|cs| - 1]) + Encode(cs[|cs| - 1])
  }

  // ----------------------------------------------------------------- lemmas

  lemma {:induction false} FlattenLength(items: seq<seq<byte>>, es: nat)
    requires forall k :: 0 <= k < |items| ==> |items[k]| == es
    ensures |Flatten(items)| == es * |items|
  {
    if items != [] {
      var m := |items| - 1;
      FlattenLength(items[..m], es);
      assert es * m + es == es * (m + 1);
    }
  }

  /** The key property of Write: every chunk emits exactly Size() + 8 bytes. */
  lemma {:induction false} EncodeLength(c: Chunk)
    requires WellFormed(c)
    ensures |Encode(c)| == SizeOf(c) + HeaderSize
    decreases c
  {
    match c
    case Leaf(_, data) => {
      match data
      case Records(es, items) => FlattenLength(items, es);
      case Record(_) =>
      case Text(_) =>
    }
    case Branch(_, cs) => EncodeAllLength(cs);
    assert |Encode(c)| == 2 * WordSize + |Payload(c)|;
  }

  lemma {:induction false} EncodeAllLength(cs: seq<Chunk>)
    requires forall i :: 0 <= i < |cs| ==> WellFormed(cs[i])
    ensures |EncodeAll(cs)| == SumSizes(cs)
    decreases cs
  {
    if cs != [] {
      var m := |cs| - 1;
      EncodeAllLength(cs[..m]);
      EncodeLength(cs[m]);
    }
  }

  /** The first eight bytes of a chunk read back as its ID and Size(), when
      the size fits in an unsigned int. */
  lemma HeaderRoundTrip(c: Chunk)
    requires WellFormed(c) && SizeOf(c) < WordRange
    ensures |Encode(c)| >= HeaderSize
    ensures ReadWord(Encode(c)[..4]) == c.id
    ensures ReadWord(Encode(c)[4..8]) == SizeOf(c)
  {
    EncodeLength(c);
    HeaderBytes(Word(c.id), Word(SizeOf(c)), Payload(c));
    WordRoundTrip(c.id);
    WordRoundTrip(SizeOf(c));
  }

  lemma HeaderBytes(a: seq<byte>, b: seq<byte>, p: seq<byte>)
    requires |a| == WordSize && |b| == WordSize
    ensures (a + b + p)[..4] == a && (a + b + p)[4..8] == b
  {
  }

  /** Splitting after one complete chunk. */
  lemma SplitCons(e: seq<byte>, rest: seq<byte>)
    requires |e| >= HeaderSize && ReadWord(e[4..8]) + HeaderSize == |e|
    ensures Split(e + rest) == [e] + Split(rest)
  {
    var b := e + rest;
    assert b[4..8] == e[4..8];
    assert b[..|e|] == e && b[|e|..] == rest;
  }

  /** Every child's encoding fits inside its branch's size. */
  lemma {:induction false} ChildSizeBound(cs: seq<Chunk>, i: int)
    requires 0 <= i < |cs|
    ensures SizeOf(cs[i]) + HeaderSize <= SumSizes(cs)
    decreases cs
  {
    if i < |cs| - 1 {
      ChildSizeBound(cs[..|cs| - 1], i);
    }
  }

  /** Cuts a byte sequence into consecutive chunks by reading each header. */
  function Split(b: seq<byte>): (r: seq<seq<byte>>)
    decreases |b|
  {
    if |b| < HeaderSize then []
    else
      var n := ReadWord(b[4..8]) + HeaderSize;
      if n <= |b| then [b[..n]] + Split(b[n..]) else [b]
  }

  lemma {:induction false} EncodeAllCons(cs: seq<Chunk>)
    requires cs != []
    ensures EncodeAll(cs) == Encode(cs[0]) + EncodeAll(cs[1..])
    decreases |cs|
  {
    if |cs| > 1 {
      var m := |cs| - 1;
      EncodeAllCons(cs[..m]);
      assert cs[..m][1..] == cs[1..][..|cs[1..]| - 1];
    }
  }

  /** Decoding a list of encodings by their headers gives back each
      chunk's encoding, in order. */
  lemma {:induction false} SplitEncodeAll(cs: seq<Chunk>)
    requires forall i :: 0 <= i < |cs| ==> WellFormed(cs[i]) && SizeOf(cs[i]) < WordRange
    ensures Split(EncodeAll(cs)) == seq(|cs|, i requires 0 <= i < |cs| => Encode(cs[i]))
    decreases |cs|
  {
    if cs != [] {
      EncodeAllCons(cs);
      HeaderRoundTrip(cs[0]);
      EncodeLength(cs[0]);
      SplitCons(Encode(cs[0]), EncodeAll(cs[1..]));
      SplitEncodeAll(cs[1..]);
      EncodingsCons(cs);
    }
  }

  lemma EncodingsCons(cs: seq<Chunk>)
    requires cs != [] && forall i :: 0 <= i < |cs| ==> WellFormed(cs[i])
    ensures seq(|cs|, i requires 0 <= i < |cs| => Encode(cs[i]))
      == [Encode(cs[0])] + seq(|cs[1..]|, i requires 0 <= i < |cs[1..]| => Encode(cs[1..][i]))
  {
  }

  /** A branch's payload decodes into its children's encodings, in the
      order they were added, whenever its size fits in an unsigned int. */
  lemma BranchRoundTrip(id: int, cs: seq<Chunk>)
    requires WellFormed(Branch(id, cs)) && SizeOf(Branch(id, cs)) < WordRange
    ensures Encode(Branch(id, cs))[HeaderSize..] == EncodeAll(cs)
    ensures Split(EncodeAll(cs)) == seq(|cs|, i requires 0 <= i < |cs| => Encode(cs[i]))
  {
    forall i | 0 <= i < |cs| ensures SizeOf(cs[i]) < WordRange {
      ChildSizeBound(cs, i);
    }
    SplitEncodeAll(cs);
  }

  lemma {:induction false} SumSizesSnoc(cs: seq<Chunk>, i: int)
    requires 0 <= i < |cs|
    ensures SumSizes(cs[..i + 1]) == SumSizes(cs[..i]) + SizeOf(cs[i]) + HeaderSize
    ensures EncodeAll(cs[..i + 1]) == EncodeAll(cs[..i]) + Encode(cs[i])
  {
    assert cs[..i + 1][..i] == cs[..i];
  }

  /** strlen: the index of the first NUL byte. */
  function Strlen(sz: seq<byte>): (l: nat)
    requires 0 in sz
    ensures l < |sz| && sz[l] == 0 && 0 !in sz[..l]
  {
    if sz[0] == 0 then 0 else Strlen(sz[1..]) + 1
  }

  // ------------------------------------------------------------ output file

  /** The file the archive writes to. */
  class OutStream {
    var bytes: seq<byte>

    constructor ()
      ensures bytes == []
    {
      bytes := [];
    }

    /** fwrite of one unsigned int or int. */
    method WriteWord(x: int)
      modifies this
      ensures bytes == old(bytes) + Word(x)
    {
      bytes := bytes + Word(x);
    }

    /** fwrite of raw bytes. */
    method WriteBytes(b: seq<byte>)
      modifies this
      ensures bytes == old(bytes) + b
    {
      bytes := bytes + b;
    }
  }

  // ---------------------------------------------------------------- chunks

  /** OChunk with its two kinds: a branch (OBranch) when `leaf` is None, or a
      leaf (OLeaf) holding `leaf`'s payload. */
  class OChunk {
    const id: int                  // m_nID
    const leaf: Option<LeafData>   // the leaf's data; None for a branch
    var parent: OChunk?            // m_pParent
    var children: seq<OChunk>      // m_child of a branch
    ghost var tree: Chunk
    ghost var Repr: set<object>

    ghost predicate Valid()
      reads this, Repr
      decreases Repr
    {
      && this in Repr
      && 0 <= id < WordRange
      && (leaf.Some? ==> children == [] && tree == Leaf(id, leaf.value) && LeafWellFormed(leaf.value))
      && (leaf.None? ==>
            && tree.Branch? && tree.id == id && |tree.children| == |children|
            && (forall i :: 0 <= i < |children| ==>
                  && children[i] in Repr && children[i].Repr <= Repr && this !in children[i].Repr
                  && children[i].parent == this
                  && children[i].Valid() && children[i].tree == tree.children[i])
            && (forall i, j :: 0 <= i < j < |children| ==> children[i].Repr !! children[j].Repr))
    }

    lemma {:induction false} ValidWellFormed()
      requires Valid()
      ensures WellFormed(tree)
      decreases Repr
    {
      if leaf.None? {
        forall i | 0 <= i < |children| ensures WellFormed(tree.children[i]) {
          children[i].ValidWellFormed();
        }
      }
    }

    /** OBranch(nid): an empty branch with no parent. */
    constructor OBranch(nid: int)
      requires 0 <= nid < WordRange
      ensures Valid() && fresh(Repr)
      ensures id == nid && leaf.None? && tree == Branch(nid, []) && parent == null
    {
      id, leaf := nid, None;
      parent, children := null, [];
      tree := Branch(nid, []);
      Repr := {this};
    }

    /** OLeaf<T>(nid, d): a copy of one record. */
    constructor OLeafRecord(nid: int, d: seq<byte>)
      requires 0 <= nid < WordRange
      ensures Valid() && fresh(Repr)
      ensures id == nid && tree == Leaf(nid, Record(d)) && parent == null
    {
      id, leaf := nid, Some(Record(d));
      parent, children := null, [];
      tree := Leaf(nid, Record(d));
      Repr := {this};
    }

    /** OLeaf<T*>(nid, pd, nsize): a copy of the first nsize records at pd;
        at least one record is required. */
    constructor OLeafArray(nid: int, pd: seq<seq<byte>>, nsize: int, elemSize: nat)
      requires 0 <= nid < WordRange
      requires 0 < nsize <= |pd|
      requires forall k :: 0 <= k < nsize ==> |pd[k]| == elemSize
      ensures Valid() && fresh(Repr)
      ensures id == nid && tree == Leaf(nid, Records(elemSize, pd[..nsize])) && parent == null
    {
      id, leaf := nid, Some(Records(elemSize, pd[..nsize]));
      parent, children := null, [];
      tree := Leaf(nid, Records(elemSize, pd[..nsize]));
      Repr := {this};
    }

    /** OLeaf<vector<T>>(nid, a): a copy of the vector's records, which must
        not be empty. */
    constructor OLeafVector(nid: int, a: seq<seq<byte>>, elemSize: nat)
      requires 0 <= nid < WordRange
      requires |a| > 0
      requires forall k :: 0 <= k < |a| ==> |a[k]| == elemSize
      ensures Valid() && fresh(Repr)
      ensures id == nid && tree == Leaf(nid, Records(elemSize, a)) && parent == null
    {
      id, leaf := nid, Some(Records(elemSize, a));
      parent, children := null, [];
      tree := Leaf(nid, Records(elemSize, a));
      Repr := {this};
    }

    /** OLeaf<const char*>(nid, sz): a copy of the C string sz, up to its
        terminating NUL. */
    constructor OLeafText(nid: int, sz: seq<byte>)
      requires 0 <= nid < WordRange
      requires 0 in sz
      ensures Valid() && fresh(Repr)
      ensures id == nid && tree == Leaf(nid, Text(sz[..Strlen(sz)])) && parent == null
    {
      var l := Strlen(sz);
      id, leaf := nid, Some(Text(sz[..l]));
      parent, children := null, [];
      tree := Leaf(nid, Text(sz[..l]));
      Repr := {this};
    }

    /** Size(): a leaf's payload size, or for a branch the sum over the
        children of their Size() plus their 8 header bytes. */
    method Size() returns (n: int)
      requires Valid()
      ensures n == SizeOf(tree)
      decreases Repr
    {
      if leaf.Some? {
        return LeafSize(leaf.value);
      }
      n := 0;
      var i := 0;
      while i < |children|
        invariant 0 <= i <= |children|
        invariant n == SumSizes(tree.children[..i])
      {
        var s := children[i].Size();
        SumSizesSnoc(tree.children, i);
        n := n + s + HeaderSize;
        i := i + 1;
      }
      assert tree.children[..i] == tree.children;
    }

    /** Write: the ID, then Size(), then the payload (a branch's children
        written one after the other, in the order they were added). */
    method Write(out: OutStream)
      requires Valid() && out !in Repr
      modifies out
      ensures out.bytes == old(out.bytes) + Encode(tree)
      decreases Repr, 1
    {
      out.WriteWord(id);
      var nsize := Size();
      out.WriteWord(nsize);
      if leaf.Some? {
        WriteLeaf(out, nsize);
        return;
      }
      WriteChildren(out);
    }

    /** The payload of a branch: each child's Write, in order. */
    method WriteChildren(out: OutStream)
      requires Valid() && leaf.None? && out !in Repr
      modifies out
      ensures out.bytes == old(out.bytes) + Payload(tree)
      decreases Repr, 0
    {
      var i := 0;
      while i < |children|
        invariant 0 <= i <= |children|
        invariant out.bytes == old(out.bytes) + EncodeAll(tree.children[..i])
      {
        children[i].Write(out);
        SumSizesSnoc(tree.children, i);
        i := i + 1;
      }
      assert tree.children[..i] == tree.children;
    }

    /** The payload of a leaf; `nsize` is its Size(). */
    method WriteLeaf(out: OutStream, nsize: int)
      requires Valid() && leaf.Some? && out !in Repr && nsize == SizeOf(tree)
      modifies out
      ensures out.bytes == old(out.bytes) + Payload(tree)
    {
      match leaf.value
      case Record(d) => {
        out.WriteBytes(d);
      }
      case Records(_, items) => {
        WriteRecords(out, items);
      }
      case Text(chars) => {
        var l := nsize - WordSize;
        out.WriteWord(l);
        out.WriteBytes(chars[..l]);
        assert chars[..l] == chars;
      }
    }

    /** fwrite of an array of records. */
    static method WriteRecords(out: OutStream, items: seq<seq<byte>>)
      modifies out
      ensures out.bytes == old(out.bytes) + Flatten(items)
    {
      var k := 0;
      while k < |items|
        invariant 0 <= k <= |items|
        invariant out.bytes == old(out.bytes) + Flatten(items[..k])
      {
        out.WriteBytes(items[k]);
        assert items[..k + 1][..k] == items[..k];
        k := k + 1;
      }
      assert items[..k] == items;
    }

    /** AddChild: appends pc to the children and makes this its parent. */
    method AddChild(pc: OChunk)
      requires Valid() && leaf.None? && pc.Valid() && Repr !! pc.Repr
      modifies this`children, this`tree, this`Repr, pc`parent
      ensures Valid() && pc.Valid()
      ensures children == old(children) + [pc] && pc.parent == this && parent == old(parent)
      ensures tree == Branch(id, old(tree.children) + [old(pc.tree)])
      ensures pc.tree == old(pc.tree)
      ensures Repr == old(Repr) + pc.Repr
    {
      children := children + [pc];
      pc.parent := this;
      tree := Branch(id, tree.children + [pc.tree]);
      Repr := Repr + pc.Repr;
      assert pc.Valid();
    }
  }

  /** The writing side of Archive: new chunks are added to the current
      chunk m_pChunk. */
  class Archive {
    var chunk: OChunk    // m_pChunk

    ghost predicate Valid()
      reads this, chunk, chunk.Repr
    {
      chunk.Valid() && chunk.leaf.None?
    }

    /** An archive positioned in the branch `current`. */
    constructor (current: OChunk)
      requires current.Valid() && current.leaf.None?
      ensures Valid() && chunk == current
    {
      chunk := current;
    }

    /** WriteChunk(nid, T& o): adds a one-record leaf. */
    method WriteRecord(nid: int, d: seq<byte>)
      requires Valid() && 0 <= nid < WordRange
      modifies chunk`children, chunk`tree, chunk`Repr
      ensures Valid() && chunk == old(chunk) && chunk.parent == old(chunk.parent)
      ensures chunk.tree == Branch(chunk.id, old(chunk.tree.children) + [Leaf(nid, Record(d))])
    {
      var c := new OChunk.OLeafRecord(nid, d);
      chunk.AddChild(c);
    }

    /** WriteChunk(nid, char* sz): adds a string leaf. */
    method WriteText(nid: int, sz: seq<byte>)
      requires Valid() && 0 <= nid < WordRange && 0 in sz
      modifies chunk`children, chunk`tree, chunk`Repr
      ensures Valid() && chunk == old(chunk) && chunk.parent == old(chunk.parent)
      ensures chunk.tree == Branch(chunk.id, old(chunk.tree.children) + [Leaf(nid, Text(sz[..Strlen(sz)]))])
    {
      var c := new OChunk.OLeafText(nid, sz);
      chunk.AddChild(c);
    }

    /** WriteChunk(nid, T* po, n): adds an array leaf with n records. */
    method WriteArray(nid: int, po: seq<seq<byte>>, n: int, elemSize: nat)
      requires Valid() && 0 <= nid < WordRange
      requires 0 < n <= |po| && forall k :: 0 <= k < n ==> |po[k]| == elemSize
      modifies chunk`children, chunk`tree, chunk`Repr
      ensures Valid() && chunk == old(chunk) && chunk.parent == old(chunk.parent)
      ensures chunk.tree == Branch(chunk.id, old(chunk.tree.children) + [Leaf(nid, Records(elemSize, po[..n]))])
    {
      var c := new OChunk.OLeafArray(nid, po, n, elemSize);
      chunk.AddChild(c);
    }

    /** WriteChunk(nid, vector<T>& a): adds an array leaf with the vector. */
    method WriteVector(nid: int, a: seq<seq<byte>>, elemSize: nat)
      requires Valid() && 0 <= nid < WordRange
      requires |a| > 0 && forall k :: 0 <= k < |a| ==> |a[k]| == elemSize
      modifies chunk`children, chunk`tree, chunk`Repr
      ensures Valid() && chunk == old(chunk) && chunk.parent == old(chunk.parent)
      ensures chunk.tree == Branch(chunk.id, old(chunk.tree.children) + [Leaf(nid, Records(elemSize, a))])
    {
      var c := new OChunk.OLeafVector(nid, a, elemSize);
      chunk.AddChild(c);
    }
  }
}
