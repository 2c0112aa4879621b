/**
  The decode engine: walks the schema tree against a forward-only cursor
  into a byte buffer. The leaves of one node are decoded in declared order;
  a message is its header node followed by the body node that the header's
  format identifier selects.
 */
module Decoder {
  import opened Wrappers
  import opened SchemaText
  import opened SchemaTree

  newtype byte = x: int | 0 <= x < 256

  /** Declared sizes from this value up are refused. */
  const MaxFieldSize := 1024

  // Names the decoder relies on.
  const RootName := "messageformats"
  const HeaderName := "headerformat"
  const FormatIdName := "messageformatID"
  const ErrorFlagName := "errorflag"
  const BodyPrefix := "bodyformat"

  /** One decoded leaf: its name, its declared size and exactly that many bytes. */
  datatype Field = Field(name: string, size: nat, payload: seq<byte>)

  datatype DecodeError =
    | NoTree                          // no node was ever built
    | NotRoot(name: string)           // the tree is not at the `messageformats` node
    | SchemaMissing(name: string)     // no `headerformat` child
    | Oversized(leaf: string, size: nat)
    | Underrun(leaf: string, size: nat)
    | Rejected(flag: Option<nat>)     // error flag missing (None) or nonzero
    | DiscriminantMissing             // no `messageformatID` in the header
    | UnknownBodyFormat(id: nat)      // no body format for this identifier

  /** What decoding the leaves of one node gives: the fields, the new cursor and how it ended. */
  datatype LeafResult = LeafResult(fields: seq<Field>, next: nat, error: Option<DecodeError>)

  datatype Message = Message(header: seq<Field>, body: seq<Field>)

  // ---------------------------------------------------------------------
  // Leaves of one node
  // ---------------------------------------------------------------------

  /** Total declared size of `leaves`. */
  function SizeSum(leaves: seq<Leaf>): nat
    decreases |leaves|
  {
    if leaves == [] then 0 else leaves[0].size + SizeSum(leaves[1..])
  }

  /**
    Decodes `leaves` in order from cursor `pos`: each leaf takes the next
    `size` bytes. Decoding stops at the first leaf that is too large or that
    does not fit in what is left of the buffer; the fields before it are kept.
   */
  function LeafDecode(leaves: seq<Leaf>, buf: seq<byte>, pos: nat): (r: LeafResult)
    requires pos <= |buf|
    ensures pos <= r.next <= |buf|
    ensures |r.fields| <= |leaves|
    decreases |leaves|
  {
    if leaves == [] then LeafResult([], pos, None)
    else
      var leaf := leaves[0];
      if leaf.size >= MaxFieldSize then LeafResult([], pos, Some(Oversized(leaf.name, leaf.size)))
      else if leaf.size > |buf| - pos then LeafResult([], pos, Some(Underrun(leaf.name, leaf.size)))
      else
        var rest := LeafDecode(leaves[1..], buf, pos + leaf.size);
        LeafResult([Field(leaf.name, leaf.size, buf[pos..pos + leaf.size])] + rest.fields, rest.next, rest.error)
  }

  /** Field `f` is leaf `i` read at its offset: the sizes of the leaves before it past `pos`. */
  ghost predicate DecodedAt(f: Field, leaves: seq<Leaf>, buf: seq<byte>, pos: nat, i: nat)
    requires i < |leaves|
  {
    var start := pos + SizeSum(leaves[..i]);
    && f.name == leaves[i].name
    && f.size == leaves[i].size
    && start + f.size <= |buf|
    && f.payload == buf[start..start + f.size]
  }

  /** The cursor moves by exactly the declared sizes of the leaves decoded. */
  lemma {:induction false} LeafDecodeNext(leaves: seq<Leaf>, buf: seq<byte>, pos: nat)
    requires pos <= |buf|
    ensures LeafDecode(leaves, buf, pos).next == pos + SizeSum(leaves[..|LeafDecode(leaves, buf, pos).fields|])
    decreases |leaves|
  {
    if leaves == [] || leaves[0].size >= MaxFieldSize || leaves[0].size > |buf| - pos {
      assert leaves[..0] == [];
    } else {
      var size := leaves[0].size;
      var rest := LeafDecode(leaves[1..], buf, pos + size);
      assert |LeafDecode(leaves, buf, pos).fields| == 1 + |rest.fields|;
      LeafDecodeNext(leaves[1..], buf, pos + size);
      SizeSumPrefix(leaves, 1 + |rest.fields|);
    }
  }

  /** Each field is its leaf's name and size with the bytes at the leaf's offset. */
  lemma {:induction false} LeafDecodeFields(leaves: seq<Leaf>, buf: seq<byte>, pos: nat)
    requires pos <= |buf|
    ensures forall i :: 0 <= i < |LeafDecode(leaves, buf, pos).fields| ==>
              DecodedAt(LeafDecode(leaves, buf, pos).fields[i], leaves, buf, pos, i)
    decreases |leaves|
  {
    var r := LeafDecode(leaves, buf, pos);
    if leaves != [] && leaves[0].size < MaxFieldSize && leaves[0].size <= |buf| - pos {
      var size := leaves[0].size;
      var rest := LeafDecode(leaves[1..], buf, pos + size);
      var f := Field(leaves[0].name, size, buf[pos..pos + size]);
      assert r.fields == [f] + rest.fields;
      LeafDecodeFields(leaves[1..], buf, pos + size);
      forall i | 0 <= i < |r.fields| ensures DecodedAt(r.fields[i], leaves, buf, pos, i) {
        if i == 0 {
          assert leaves[..0] == [];
        } else {
          DecodedAtShift(rest.fields[i - 1], leaves, buf, pos, i);
        }
      }
    }
  }

  /** Leaf i of `leaves` read from `pos` is leaf i - 1 of the rest read past the first leaf. */
  lemma DecodedAtShift(f: Field, leaves: seq<Leaf>, buf: seq<byte>, pos: nat, i: nat)
    requires 0 < i < |leaves|
    requires DecodedAt(f, leaves[1..], buf, pos + leaves[0].size, i - 1)
    ensures DecodedAt(f, leaves, buf, pos, i)
  {
    SizeSumPrefix(leaves, i);
  }

  /** The size of a non-empty prefix is its first leaf's size and the size of the rest of it. */
  lemma SizeSumPrefix(leaves: seq<Leaf>, i: nat)
    requires 0 < i <= |leaves|
    ensures SizeSum(leaves[..i]) == leaves[0].size + SizeSum(leaves[1..][..i - 1])
  {
    assert leaves[..i][0] == leaves[0];
    assert leaves[..i][1..] == leaves[1..][..i - 1];
  }

  /**
    Decoding stops only at a leaf that is too large or does not fit, and at
    the first such leaf: every leaf before it is below the size ceiling.
   */
  lemma {:induction false} LeafDecodeStops(leaves: seq<Leaf>, buf: seq<byte>, pos: nat)
    requires pos <= |buf|
    ensures var r := LeafDecode(leaves, buf, pos);
      && (forall i :: 0 <= i < |r.fields| ==> leaves[i].size < MaxFieldSize)
      && (r.error.None? <==> |r.fields| == |leaves|)
      && (r.error.Some? ==>
            var bad := leaves[|r.fields|];
            if bad.size >= MaxFieldSize then r.error == Some(Oversized(bad.name, bad.size))
            else r.error == Some(Underrun(bad.name, bad.size)) && r.next + bad.size > |buf|)
    decreases |leaves|
  {
    if leaves != [] && leaves[0].size < MaxFieldSize && leaves[0].size <= |buf| - pos {
      LeafDecodeStops(leaves[1..], buf, pos + leaves[0].size);
    }
  }

  /** Bytes the C code allocates for one field's payload: the width of the `unsigned` that holds the size. */
  const StoredWidthAsWritten := 4

  /** As written, a field's copy stays inside its storage only when the leaf is at most that wide. */
  predicate CopyInBoundsAsWritten(leaf: Leaf) {
    leaf.size <= StoredWidthAsWritten
  }

  /**
    A 16-byte leaf passes the size check yet, as written, is copied into
    4 bytes of storage; the corrected decoder gives it a 16-byte payload.
   */
  lemma AsWrittenCopyOverflows(buf: seq<byte>)
    requires |buf| >= 16
    ensures Leaf("data_1", 16).size < MaxFieldSize && !CopyInBoundsAsWritten(Leaf("data_1", 16))
    ensures |LeafDecode([Leaf("data_1", 16)], buf, 0).fields[0].payload| == 16
  {
    LeafDecodeFields([Leaf("data_1", 16)], buf, 0);
    LeafDecodeStops([Leaf("data_1", 16)], buf, 0);
    assert DecodedAt(LeafDecode([Leaf("data_1", 16)], buf, 0).fields[0], [Leaf("data_1", 16)], buf, 0, 0);
  }

  /** Decoding a node succeeds exactly when every leaf is below the ceiling and all of them fit. */
  lemma {:induction false} LeafDecodeSucceeds(leaves: seq<Leaf>, buf: seq<byte>, pos: nat)
    requires pos <= |buf|
    ensures LeafDecode(leaves, buf, pos).error.None? <==>
              (forall i :: 0 <= i < |leaves| ==> leaves[i].size < MaxFieldSize) && pos + SizeSum(leaves) <= |buf|
    ensures LeafDecode(leaves, buf, pos).error.None? ==> LeafDecode(leaves, buf, pos).next == pos + SizeSum(leaves)
    decreases |leaves|
  {
    if leaves != [] {
      var size := leaves[0].size;
      if size < MaxFieldSize && size <= |buf| - pos {
        LeafDecodeSucceeds(leaves[1..], buf, pos + size);
        assert forall i :: 1 <= i < |leaves| ==> leaves[i] == leaves[1..][i - 1];
      }
    }
  }

  /** Decoding continued from the cursor where `first` stopped, unless `first` failed. */
  function Continue(first: LeafResult, more: seq<Leaf>, buf: seq<byte>): LeafResult
    requires first.next <= |buf|
  {
    if first.error.Some? then first
    else
      var second := LeafDecode(more, buf, first.next);
      LeafResult(first.fields + second.fields, second.next, second.error)
  }

  /** The cursor only moves forward: decoding `xs + ys` is decoding `xs`, then `ys` from where it stopped. */
  lemma {:induction false} LeafDecodeSequential(xs: seq<Leaf>, ys: seq<Leaf>, buf: seq<byte>, pos: nat)
    requires pos <= |buf|
    ensures LeafDecode(xs + ys, buf, pos) == Continue(LeafDecode(xs, buf, pos), ys, buf)
    decreases |xs|
  {
    if xs == [] {
      assert xs + ys == ys;
    } else {
      assert (xs + ys)[0] == xs[0] && (xs + ys)[1..] == xs[1..] + ys;
      var size := xs[0].size;
      if size < MaxFieldSize && size <= |buf| - pos {
        var f := Field(xs[0].name, size, buf[pos..pos + size]);
        calc {
          LeafDecode(xs + ys, buf, pos);
          { LeafDecodeStep(xs + ys, buf, pos); }
          Prepend(f, LeafDecode(xs[1..] + ys, buf, pos + size));
          { LeafDecodeSequential(xs[1..], ys, buf, pos + size); }
          Prepend(f, Continue(LeafDecode(xs[1..], buf, pos + size), ys, buf));
          { ContinuePrepend(f, LeafDecode(xs[1..], buf, pos + size), ys, buf); }
          Continue(Prepend(f, LeafDecode(xs[1..], buf, pos + size)), ys, buf);
          { LeafDecodeStep(xs, buf, pos); }
          Continue(LeafDecode(xs, buf, pos), ys, buf);
        }
      } else {
        assert LeafDecode(xs + ys, buf, pos) == LeafDecode(xs, buf, pos);
      }
    }
  }

  /** `r` with field `f` in front. */
  function Prepend(f: Field, r: LeafResult): LeafResult {
    LeafResult([f] + r.fields, r.next, r.error)
  }

  /** One step of the decoding: a leaf that fits becomes the first field, and the rest follows it. */
  lemma LeafDecodeStep(leaves: seq<Leaf>, buf: seq<byte>, pos: nat)
    requires pos <= |buf| && leaves != [] && leaves[0].size < MaxFieldSize && leaves[0].size <= |buf| - pos
    ensures LeafDecode(leaves, buf, pos) ==
              Prepend(Field(leaves[0].name, leaves[0].size, buf[pos..pos + leaves[0].size]),
                      LeafDecode(leaves[1..], buf, pos + leaves[0].size))
  {
  }

  lemma ContinuePrepend(f: Field, r: LeafResult, more: seq<Leaf>, buf: seq<byte>)
    requires r.next <= |buf|
    ensures Prepend(f, Continue(r, more, buf)) == Continue(Prepend(f, r), more, buf)
  {
    if r.error.None? {
      var second := LeafDecode(more, buf, r.next);
      assert [f] + (r.fields + second.fields) == [f] + r.fields + second.fields;
    }
  }

  /**
    The leaf decoder: copies each leaf's declared number of bytes from the
    cursor into a field and moves the cursor on, in declared order.
   */
  method DecodeLeaves(leaves: seq<Leaf>, buf: seq<byte>, pos: nat) returns (r: LeafResult)
    requires pos <= |buf|
    ensures r == LeafDecode(leaves, buf, pos)
  {
    var fields: seq<Field> := [];
    var cursor := pos;
    var j := 0;
    while j < |leaves|
      invariant j <= |leaves| && pos <= cursor <= |buf|
      invariant LeafDecode(leaves, buf, pos) == Continue(LeafResult(fields, cursor, None), leaves[j..], buf)
    {
      var leaf := leaves[j];
      assert leaves[j..][0] == leaf && leaves[j..][1..] == leaves[j + 1..];
      if leaf.size >= MaxFieldSize {
        return LeafResult(fields, cursor, Some(Oversized(leaf.name, leaf.size)));
      }
      if leaf.size > |buf| - cursor {
        return LeafResult(fields, cursor, Some(Underrun(leaf.name, leaf.size)));
      }
      fields := fields + [Field(leaf.name, leaf.size, buf[cursor..cursor + leaf.size])];
      cursor := cursor + leaf.size;
      j := j + 1;
    }
    r := LeafResult(fields, cursor, None);
  }

  // ---------------------------------------------------------------------
  // Header words
  // ---------------------------------------------------------------------

  function Pow256(n: nat): (r: nat)
    ensures r >= 1
  {
    if n == 0 then 1 else 256 * Pow256(n - 1)
  }

  /** The unsigned value of `p`, least significant byte first. */
  function LittleEndian(p: seq<byte>): (v: nat)
    ensures v < Pow256(|p|)
    decreases |p|
  {
    if p == [] then 0 else p[0] as int + 256 * LittleEndian(p[1..])
  }

  /** A little-endian value is zero exactly when every byte is. */
  lemma {:induction false} LittleEndianZero(p: seq<byte>)
    ensures LittleEndian(p) == 0 <==> forall i :: 0 <= i < |p| ==> p[i] == 0
    decreases |p|
  {
    if p != [] {
      LittleEndianZero(p[1..]);
      assert forall i :: 1 <= i < |p| ==> p[i] == p[1..][i - 1];
    }
  }

  /**
    Copying the payload `p` (at most four bytes) over a 32-bit word stored
    least significant byte first: its low |p| bytes become `p`, the others
    keep their value.
   */
  function Overlay(word: nat, p: seq<byte>): (r: nat)
    ensures r == LittleEndian(p) + Pow256(|p|) * (word / Pow256(|p|))
    decreases |p|
  {
    if p == [] then word
    else
      var rest := Overlay(word / 256, p[1..]);
      ShiftIn(word, p[0] as nat, LittleEndian(p[1..]), Pow256(|p| - 1));
      p[0] as int + 256 * rest
  }

  /** Prepending the low byte `b` to a word whose high part is `word`'s, shifted down one byte. */
  lemma ShiftIn(word: nat, b: nat, low: nat, pw: nat)
    requires pw > 0
    ensures b + 256 * (low + pw * (word / 256 / pw)) == (b + 256 * low) + (256 * pw) * (word / (256 * pw))
  {
    DivDiv(word, 256, pw);
    var h := word / (256 * pw);
    assert 256 * (low + pw * h) == 256 * low + (256 * pw) * h;
  }

  lemma DivDiv(a: nat, b: nat, c: nat)
    requires b > 0 && c > 0
    ensures a / b / c == a / (b * c)
  {
    var q, r := a / b, a % b;
    var q2, r2 := q / c, q % c;
    assert a == b * q + r;
    assert q == c * q2 + r2;
    MulRegroup(b, c, q2, r2);
    assert a == (b * c) * q2 + (b * r2 + r);
    MulMono(b, r2, c - 1);
    assert b * (c - 1) == b * c - b;
    DivUnique(a, b * c, q2, b * r2 + r);
  }

  lemma MulRegroup(b: nat, c: nat, q: nat, r: nat)
    ensures b * (c * q + r) == (b * c) * q + b * r
  {
  }

  lemma MulMono(m: nat, x: nat, y: nat)
    requires x <= y
    ensures m * x <= m * y
  {
    assert m * y == m * x + m * (y - x);
  }

  lemma DivUnique(a: nat, m: nat, q: nat, t: nat)
    requires 0 <= t < m && a == m * q + t
    ensures a / m == q
  {
    var q', t' := a / m, a % m;
    var d := q - q';
    assert m * d == t' - t;
    assert m * -d == t - t';
    if d >= 1 {
      MulAtLeast(m, d);
    } else if d <= -1 {
      MulAtLeast(m, -d);
    }
  }

  lemma MulAtLeast(m: nat, d: int)
    requires d >= 1
    ensures m * d >= m
  {
    assert m * d == m + m * (d - 1);
  }

  /** A copy of at most `k` bytes over a word below 256^k leaves a word below 256^k. */
  lemma {:induction false} OverlayBelow(word: nat, p: seq<byte>, k: nat)
    ensures word < Pow256(k) && |p| <= k ==> Overlay(word, p) < Pow256(k)
    decreases |p|
  {
    if p != [] && word < Pow256(k) && |p| <= k {
      var pw := Pow256(k - 1);
      assert Pow256(k) == 256 * pw;
      assert word / 256 < pw;
      OverlayBelow(word / 256, p[1..], k - 1);
      var x := Overlay(word / 256, p[1..]);
      assert x <= pw - 1;
      assert 256 * x <= 256 * pw - 256;
    }
  }

  /** Over a zero word the copy leaves exactly the payload's value. */
  lemma {:induction false} OverlayOnZero(p: seq<byte>)
    ensures Overlay(0, p) == LittleEndian(p)
    decreases |p|
  {
    if p != [] {
      OverlayOnZero(p[1..]);
    }
  }

  predicate HasField(fields: seq<Field>, name: string) {
    exists i :: 0 <= i < |fields| && fields[i].name == name
  }

  /**
    The word the header scan leaves for `name`: it starts at 0 and every
    field with that name, in order, is copied over it.
   */
  function HeaderWord(fields: seq<Field>, name: string): (r: nat)
    ensures (forall k :: 0 <= k < |fields| && fields[k].name == name ==> |fields[k].payload| <= 4) ==>
              r < Pow256(4)
    decreases |fields|
  {
    if fields == [] then 0
    else
      var init := fields[..|fields| - 1];
      assert forall k :: 0 <= k < |init| ==> init[k] == fields[k];
      var word := HeaderWord(init, name);
      var last := fields[|fields| - 1];
      OverlayBelow(word, last.payload, 4);
      if last.name == name then Overlay(word, last.payload) else word
  }

  /** With no field of that name the word stays 0. */
  lemma {:induction false} HeaderWordAbsent(fields: seq<Field>, name: string)
    requires !HasField(fields, name)
    ensures HeaderWord(fields, name) == 0
    decreases |fields|
  {
    if fields != [] {
      var init := fields[..|fields| - 1];
      assert !HasField(init, name) by {
        forall i | 0 <= i < |init| ensures init[i].name != name { assert init[i] == fields[i]; }
      }
      HeaderWordAbsent(init, name);
    }
  }

  /** With exactly one field of that name, the word is that field's little-endian value. */
  lemma {:induction false} HeaderWordSingle(fields: seq<Field>, name: string, i: nat)
    requires i < |fields| && fields[i].name == name
    requires forall k :: 0 <= k < |fields| && fields[k].name == name ==> k == i
    ensures HeaderWord(fields, name) == LittleEndian(fields[i].payload)
    decreases |fields|
  {
    var init := fields[..|fields| - 1];
    if i == |fields| - 1 {
      assert !HasField(init, name) by {
        forall k | 0 <= k < |init| ensures init[k].name != name { assert init[k] == fields[k]; }
      }
      HeaderWordAbsent(init, name);
      OverlayOnZero(fields[i].payload);
    } else {
      assert init[i] == fields[i];
      forall k | 0 <= k < |init| && init[k].name == name ensures k == i { assert init[k] == fields[k]; }
      HeaderWordSingle(init, name, i);
    }
  }

  /** The header fields read into words have payloads of at most four bytes. */
  predicate WordsFit(fields: seq<Field>) {
    forall i :: 0 <= i < |fields| && (fields[i].name == FormatIdName || fields[i].name == ErrorFlagName)
      ==> |fields[i].payload| <= 4
  }

  /**
    The scan of the decoded header: picks out the format identifier and the
    error flag by name, whatever their position; other fields are ignored.
   */
  method ScanHeader(fields: seq<Field>) returns (id: nat, hasId: bool, flag: nat, hasFlag: bool)
    requires WordsFit(fields)
    ensures hasId == HasField(fields, FormatIdName) && id == HeaderWord(fields, FormatIdName)
    ensures hasFlag == HasField(fields, ErrorFlagName) && flag == HeaderWord(fields, ErrorFlagName)
  {
    id, hasId, flag, hasFlag := 0, false, 0, false;
    for i := 0 to |fields|
      invariant hasId == HasField(fields[..i], FormatIdName) && id == HeaderWord(fields[..i], FormatIdName)
      invariant hasFlag == HasField(fields[..i], ErrorFlagName) && flag == HeaderWord(fields[..i], ErrorFlagName)
    {
      assert fields[..i + 1][..i] == fields[..i] && fields[..i + 1][i] == fields[i];
      if fields[i].name == FormatIdName {
        id := Overlay(id, fields[i].payload);
        hasId := true;
      } else if fields[i].name == ErrorFlagName {
        flag := Overlay(flag, fields[i].payload);
        hasFlag := true;
      }
    }
    assert fields[..|fields|] == fields;
  }

  // ---------------------------------------------------------------------
  // Body selection
  // ---------------------------------------------------------------------

  /** The name of the body format for identifier `id`: the prefix and one decimal digit. */
  function BodyName(id: nat): (r: Option<string>)
    ensures r.Some? <==> id < 10
    ensures r.Some? ==>
              && |r.value| == |BodyPrefix| + 1
              && r.value[..|BodyPrefix|] == BodyPrefix
              && AllDigits(r.value[|BodyPrefix|..])
              && Decimal(r.value[|BodyPrefix|..]) == id
  {
    if id < 10 then
      DecimalOfNumeral(id);
      assert (BodyPrefix + Numeral(id))[|BodyPrefix|..] == Numeral(id);
      Some(BodyPrefix + Numeral(id))
    else None
  }

  /** Different identifiers select differently named body formats. */
  lemma BodyNameInjective(id: nat, id': nat)
    requires BodyName(id).Some? && BodyName(id) == BodyName(id')
    ensures id == id'
  {
  }

  /**
    The body name as the C code composes it: the character 48 + ID is
    stored in one byte, and a NUL byte ends the name early.
   */
  function BodyNameAsWritten(id: nat): (r: string)
    ensures |BodyPrefix| <= |r| <= |BodyPrefix| + 1 && r[..|BodyPrefix|] == BodyPrefix
  {
    var code := (48 + id) % 256;
    if code == 0 then BodyPrefix else BodyPrefix + [code as char]
  }

  /** For the identifiers the one-digit naming convention supports (0 to 9), the C name and the corrected one agree. */
  lemma AsWrittenAgreesBelowTen(id: nat)
    requires id < 10
    ensures BodyName(id) == Some(BodyNameAsWritten(id))
  {
  }

  /** Identifier 17 selects a format named with a letter; 208 selects the bare prefix. */
  lemma AsWrittenWideIdSelectsLetter()
    ensures BodyNameAsWritten(17) == "bodyformatA" && BodyName(17).None?
    ensures BodyNameAsWritten(208) == "bodyformat" && BodyName(208).None?
  {
    assert BodyPrefix + ['A'] == "bodyformatA";
  }

  /** A header without a format identifier makes the C code look up `bodyformat0`. */
  lemma AsWrittenMissingIdSelectsBodyZero(fields: seq<Field>)
    requires !HasField(fields, FormatIdName)
    ensures BodyNameAsWritten(HeaderWord(fields, FormatIdName)) == "bodyformat0"
  {
    HeaderWordAbsent(fields, FormatIdName);
    assert BodyPrefix + ['0'] == "bodyformat0";
  }

  // ---------------------------------------------------------------------
  // Whole message
  // ---------------------------------------------------------------------

  /** The `headerformat` child of the root, when the tree stands at a `messageformats` node. */
  function HeaderNode(tree: Arena): (r: Option<nat>)
    requires WellFormed(tree)
    ensures r.Some? ==> tree.cursor.Some? && tree.nodes[tree.cursor.value].name == RootName
    ensures r.Some? ==> r.value < |tree.nodes| && tree.nodes[r.value].name == HeaderName
    ensures r.Some? ==> FirstChildNamed(tree.nodes, tree.cursor.value, HeaderName, r.value)
    ensures r.Some? <==>
              && tree.cursor.Some? && tree.nodes[tree.cursor.value].name == RootName
              && exists c :: c in tree.nodes[tree.cursor.value].children && tree.nodes[c].name == HeaderName
  {
    if tree.cursor.None? || tree.nodes[tree.cursor.value].name != RootName then None
    else FindChild(tree.nodes, tree.cursor.value, HeaderName)
  }

  /** The child of the cursor node that holds the body format for identifier `id`. */
  function BodyNode(tree: Arena, id: nat): (r: Option<nat>)
    requires WellFormed(tree) && tree.cursor.Some?
    ensures r.Some? ==> id < 10 && r.value < |tree.nodes|
    ensures r.Some? ==> tree.nodes[r.value].name == BodyPrefix + Numeral(id)
    ensures r.Some? ==> tree.nodes[r.value].parent == tree.cursor
    ensures r.Some? ==> FirstChildNamed(tree.nodes, tree.cursor.value, BodyPrefix + Numeral(id), r.value)
    ensures r.Some? <==>
              && id < 10
              && exists c :: c in tree.nodes[tree.cursor.value].children && tree.nodes[c].name == BodyPrefix + Numeral(id)
  {
    match BodyName(id)
    case None => None
    case Some(name) => FindChild(tree.nodes, tree.cursor.value, name)
  }

  /**
    Decoding one message from cursor `pos`: the header node's leaves, then,
    when the header carries a zero error flag and a format identifier, the
    leaves of the body format that identifier selects. Returns the message
    or the reason it was not decoded, and the cursor where decoding stopped.
   */
  function Decode(tree: Arena, buf: seq<byte>, pos: nat): (r: (Result<Message, DecodeError>, nat))
    requires WellFormed(tree) && pos <= |buf|
    ensures pos <= r.1 <= |buf|
  {
    if tree.cursor.None? then (Err(NoTree), pos)
    else if tree.nodes[tree.cursor.value].name != RootName then (Err(NotRoot(tree.nodes[tree.cursor.value].name)), pos)
    else match HeaderNode(tree)
    case None => (Err(SchemaMissing(HeaderName)), pos)
    case Some(h) =>
      var header := LeafDecode(tree.nodes[h].leaves, buf, pos);
      if header.error.Some? then (Err(header.error.value), header.next)
      else DecodeBody(tree, header.fields, buf, header.next)
  }

  /**
    What follows a header decoded without error: the error flag and the
    format identifier are checked, then the leaves of the body format the
    identifier selects are read from `next`.
   */
  function DecodeBody(tree: Arena, fields: seq<Field>, buf: seq<byte>, next: nat): (r: (Result<Message, DecodeError>, nat))
    requires WellFormed(tree) && tree.cursor.Some? && next <= |buf|
    ensures next <= r.1 <= |buf|
  {
    if !HasField(fields, ErrorFlagName) then (Err(Rejected(None)), next)
    else if HeaderWord(fields, ErrorFlagName) != 0 then (Err(Rejected(Some(HeaderWord(fields, ErrorFlagName)))), next)
    else if !HasField(fields, FormatIdName) then (Err(DiscriminantMissing), next)
    else
      var id := HeaderWord(fields, FormatIdName);
      match BodyNode(tree, id)
      case None => (Err(UnknownBodyFormat(id)), next)
      case Some(b) =>
        var body := LeafDecode(tree.nodes[b].leaves, buf, next);
        if body.error.Some? then (Err(body.error.value), body.next)
        else (Ok(Message(fields, body.fields)), body.next)
  }

  /** Without a tree at its `messageformats` node and a `headerformat` child, nothing is read. */
  lemma DecodeNeedsHeader(tree: Arena, buf: seq<byte>, pos: nat)
    requires WellFormed(tree) && pos <= |buf| && HeaderNode(tree).None?
    ensures Decode(tree, buf, pos).1 == pos
    ensures Decode(tree, buf, pos).0 ==
              if tree.cursor.None? then Err(NoTree)
              else if tree.nodes[tree.cursor.value].name != RootName then Err(NotRoot(tree.nodes[tree.cursor.value].name))
              else Err(SchemaMissing(HeaderName))
  {
  }

  /**
    A header whose error flag is missing or nonzero stops decoding right
    after the header: no byte of a body is read.
   */
  lemma DecodeGatesOnErrorFlag(tree: Arena, buf: seq<byte>, pos: nat, h: nat)
    requires WellFormed(tree) && pos <= |buf| && HeaderNode(tree) == Some(h)
    requires (forall i :: 0 <= i < |tree.nodes[h].leaves| ==> tree.nodes[h].leaves[i].size < MaxFieldSize)
    requires pos + SizeSum(tree.nodes[h].leaves) <= |buf|
    requires var fields := LeafDecode(tree.nodes[h].leaves, buf, pos).fields;
             !HasField(fields, ErrorFlagName) || HeaderWord(fields, ErrorFlagName) != 0
    ensures Decode(tree, buf, pos).0.Err? && Decode(tree, buf, pos).0.error.Rejected?
    ensures Decode(tree, buf, pos).1 == pos + SizeSum(tree.nodes[h].leaves)
  {
    LeafDecodeSucceeds(tree.nodes[h].leaves, buf, pos);
    DecodeAfterHeader(tree, buf, pos, h);
  }

  /** An accepted header without a format identifier is an error, and no body is read. */
  lemma DecodeNeedsFormatId(tree: Arena, buf: seq<byte>, pos: nat, h: nat)
    requires WellFormed(tree) && pos <= |buf| && HeaderNode(tree) == Some(h)
    requires (forall i :: 0 <= i < |tree.nodes[h].leaves| ==> tree.nodes[h].leaves[i].size < MaxFieldSize)
    requires pos + SizeSum(tree.nodes[h].leaves) <= |buf|
    requires var fields := LeafDecode(tree.nodes[h].leaves, buf, pos).fields;
             HasField(fields, ErrorFlagName) && HeaderWord(fields, ErrorFlagName) == 0 && !HasField(fields, FormatIdName)
    ensures Decode(tree, buf, pos).0 == Err(DiscriminantMissing)
    ensures Decode(tree, buf, pos).1 == pos + SizeSum(tree.nodes[h].leaves)
  {
    LeafDecodeSucceeds(tree.nodes[h].leaves, buf, pos);
    DecodeAfterHeader(tree, buf, pos, h);
  }

  /**
    A decoded message is the header node's leaves read from `pos`, then the
    selected body node's leaves read right after them; the cursor ends past
    exactly the declared sizes of both.
   */
  lemma DecodeOkReadsDeclaredLayout(tree: Arena, buf: seq<byte>, pos: nat)
    requires WellFormed(tree) && pos <= |buf| && Decode(tree, buf, pos).0.Ok?
    ensures HeaderNode(tree).Some?
    ensures var hl := tree.nodes[HeaderNode(tree).value].leaves;
            var m := Decode(tree, buf, pos).0.value;
            && |m.header| == |hl|
            && (forall i :: 0 <= i < |m.header| ==> DecodedAt(m.header[i], hl, buf, pos, i))
            && HasField(m.header, ErrorFlagName) && HeaderWord(m.header, ErrorFlagName) == 0
            && HasField(m.header, FormatIdName)
            && BodyNode(tree, HeaderWord(m.header, FormatIdName)).Some?
            && var bl := tree.nodes[BodyNode(tree, HeaderWord(m.header, FormatIdName)).value].leaves;
               && |m.body| == |bl|
               && (forall i :: 0 <= i < |m.body| ==> DecodedAt(m.body[i], bl, buf, pos + SizeSum(hl), i))
               && Decode(tree, buf, pos).1 == pos + SizeSum(hl) + SizeSum(bl)
  {
    DecodeOkShape(tree, buf, pos);
    var hl := tree.nodes[HeaderNode(tree).value].leaves;
    var header := LeafDecode(hl, buf, pos);
    NodeDecodedWhole(hl, buf, pos);
    var start := header.next;
    assert start == pos + SizeSum(hl);
    var bl := tree.nodes[BodyNode(tree, HeaderWord(header.fields, FormatIdName)).value].leaves;
    var body := LeafDecode(bl, buf, start);
    NodeDecodedWhole(bl, buf, start);
    var m := Decode(tree, buf, pos).0.value;
    assert m.header == header.fields && m.body == body.fields;
    forall i | 0 <= i < |m.body| ensures DecodedAt(m.body[i], bl, buf, start, i) {
      assert m.body[i] == body.fields[i];
    }
  }

  /** The path through Decode that ends with a message. */
  lemma DecodeOkShape(tree: Arena, buf: seq<byte>, pos: nat)
    requires WellFormed(tree) && pos <= |buf| && Decode(tree, buf, pos).0.Ok?
    ensures HeaderNode(tree).Some?
    ensures var header := LeafDecode(tree.nodes[HeaderNode(tree).value].leaves, buf, pos);
            && header.error.None?
            && HasField(header.fields, ErrorFlagName) && HeaderWord(header.fields, ErrorFlagName) == 0
            && HasField(header.fields, FormatIdName)
            && BodyNode(tree, HeaderWord(header.fields, FormatIdName)).Some?
            && var body := LeafDecode(tree.nodes[BodyNode(tree, HeaderWord(header.fields, FormatIdName)).value].leaves, buf, header.next);
               body.error.None? && Decode(tree, buf, pos) == (Ok(Message(header.fields, body.fields)), body.next)
  {
  }

  /** A node decoded without error yields one field per leaf, each at its offset, and ends past all of them. */
  lemma NodeDecodedWhole(leaves: seq<Leaf>, buf: seq<byte>, pos: nat)
    requires pos <= |buf| && LeafDecode(leaves, buf, pos).error.None?
    ensures |LeafDecode(leaves, buf, pos).fields| == |leaves|
    ensures forall i :: 0 <= i < |leaves| ==> DecodedAt(LeafDecode(leaves, buf, pos).fields[i], leaves, buf, pos, i)
    ensures LeafDecode(leaves, buf, pos).next == pos + SizeSum(leaves)
  {
    LeafDecodeStops(leaves, buf, pos);
    LeafDecodeNext(leaves, buf, pos);
    LeafDecodeFields(leaves, buf, pos);
    assert leaves[..|leaves|] == leaves;
  }

  /**
    Conversely, a message is decoded whenever the header and the selected
    body format exist, every leaf is below the size ceiling, both fit in the
    buffer, and the header has a zero error flag and a format identifier.
   */
  lemma DecodeOkWhenLayoutFits(tree: Arena, buf: seq<byte>, pos: nat, h: nat, b: nat)
    requires WellFormed(tree) && pos <= |buf| && HeaderNode(tree) == Some(h)
    requires (forall i :: 0 <= i < |tree.nodes[h].leaves| ==> tree.nodes[h].leaves[i].size < MaxFieldSize)
    requires pos + SizeSum(tree.nodes[h].leaves) <= |buf|
    requires var fields := LeafDecode(tree.nodes[h].leaves, buf, pos).fields;
             && HasField(fields, ErrorFlagName) && HeaderWord(fields, ErrorFlagName) == 0
             && HasField(fields, FormatIdName)
             && BodyNode(tree, HeaderWord(fields, FormatIdName)) == Some(b)
    requires (forall i :: 0 <= i < |tree.nodes[b].leaves| ==> tree.nodes[b].leaves[i].size < MaxFieldSize)
    requires pos + SizeSum(tree.nodes[h].leaves) + SizeSum(tree.nodes[b].leaves) <= |buf|
    ensures Decode(tree, buf, pos).0.Ok?
  {
    var hl := tree.nodes[h].leaves;
    LeafDecodeSucceeds(hl, buf, pos);
    var header := LeafDecode(hl, buf, pos);
    assert header.error.None? && header.next == pos + SizeSum(hl);
    LeafDecodeSucceeds(tree.nodes[b].leaves, buf, header.next);
    assert LeafDecode(tree.nodes[b].leaves, buf, header.next).error.None?;
  }

  /**
    An accepted header whose identifier selects no body format child of the
    root (an identifier of 10 or more, or no child of that name) is an
    error right after the header.
   */
  lemma DecodeNoBodyFormat(tree: Arena, buf: seq<byte>, pos: nat, h: nat)
    requires WellFormed(tree) && pos <= |buf| && HeaderNode(tree) == Some(h)
    requires (forall i :: 0 <= i < |tree.nodes[h].leaves| ==> tree.nodes[h].leaves[i].size < MaxFieldSize)
    requires pos + SizeSum(tree.nodes[h].leaves) <= |buf|
    requires var fields := LeafDecode(tree.nodes[h].leaves, buf, pos).fields;
             && HasField(fields, ErrorFlagName) && HeaderWord(fields, ErrorFlagName) == 0
             && HasField(fields, FormatIdName)
             && var id := HeaderWord(fields, FormatIdName);
                id >= 10 || forall c :: c in tree.nodes[tree.cursor.value].children ==> tree.nodes[c].name != BodyPrefix + Numeral(id)
    ensures Decode(tree, buf, pos).0 == Err(UnknownBodyFormat(HeaderWord(LeafDecode(tree.nodes[h].leaves, buf, pos).fields, FormatIdName)))
    ensures Decode(tree, buf, pos).1 == pos + SizeSum(tree.nodes[h].leaves)
  {
    var header := LeafDecode(tree.nodes[h].leaves, buf, pos);
    LeafDecodeSucceeds(tree.nodes[h].leaves, buf, pos);
    var id := HeaderWord(header.fields, FormatIdName);
    assert BodyNode(tree, id).None?;
    DecodeAfterHeader(tree, buf, pos, h);
    UnknownBodyFormatAfterHeader(tree, header.fields, buf, header.next);
    assert Decode(tree, buf, pos) == (Err(UnknownBodyFormat(id)), header.next);
    assert header.next == pos + SizeSum(tree.nodes[h].leaves);
  }

  /** Once the header node's leaves decode without error, the rest of decoding is DecodeBody from where they end. */
  lemma DecodeAfterHeader(tree: Arena, buf: seq<byte>, pos: nat, h: nat)
    requires WellFormed(tree) && pos <= |buf| && HeaderNode(tree) == Some(h)
    requires LeafDecode(tree.nodes[h].leaves, buf, pos).error.None?
    ensures tree.cursor.Some?
    ensures var header := LeafDecode(tree.nodes[h].leaves, buf, pos);
            Decode(tree, buf, pos) == DecodeBody(tree, header.fields, buf, header.next)
  {
  }

  lemma UnknownBodyFormatAfterHeader(tree: Arena, fields: seq<Field>, buf: seq<byte>, next: nat)
    requires WellFormed(tree) && tree.cursor.Some? && next <= |buf|
    requires HasField(fields, ErrorFlagName) && HeaderWord(fields, ErrorFlagName) == 0 && HasField(fields, FormatIdName)
    requires BodyNode(tree, HeaderWord(fields, FormatIdName)).None?
    ensures DecodeBody(tree, fields, buf, next) == (Err(UnknownBodyFormat(HeaderWord(fields, FormatIdName))), next)
  {
  }

  /**
    A header that fails to decode (a leaf at or over the size ceiling, or
    one that does not fit in the buffer) is the message's error, and the
    cursor stays where that leaf begins.
   */
  lemma DecodeHeaderFails(tree: Arena, buf: seq<byte>, pos: nat, h: nat)
    requires WellFormed(tree) && pos <= |buf| && HeaderNode(tree) == Some(h)
    requires LeafDecode(tree.nodes[h].leaves, buf, pos).error.Some?
    ensures Decode(tree, buf, pos) ==
              (Err(LeafDecode(tree.nodes[h].leaves, buf, pos).error.value), LeafDecode(tree.nodes[h].leaves, buf, pos).next)
  {
  }

  /**
    An accepted header whose body format fails to decode gives that failure
    as the message's error, with the cursor where the failing body leaf begins.
   */
  lemma DecodeBodyFails(tree: Arena, buf: seq<byte>, pos: nat, h: nat, b: nat)
    requires WellFormed(tree) && pos <= |buf| && HeaderNode(tree) == Some(h)
    requires var header := LeafDecode(tree.nodes[h].leaves, buf, pos);
             && header.error.None?
             && HasField(header.fields, ErrorFlagName) && HeaderWord(header.fields, ErrorFlagName) == 0
             && HasField(header.fields, FormatIdName)
             && BodyNode(tree, HeaderWord(header.fields, FormatIdName)) == Some(b)
             && LeafDecode(tree.nodes[b].leaves, buf, header.next).error.Some?
    ensures var body := LeafDecode(tree.nodes[b].leaves, buf, LeafDecode(tree.nodes[h].leaves, buf, pos).next);
            Decode(tree, buf, pos) == (Err(body.error.value), body.next)
  {
  }

  /** The identifier and flag leaves among `leaves` are at most four bytes wide. */
  predicate LeafWordsFit(leaves: seq<Leaf>) {
    forall k :: 0 <= k < |leaves| && (leaves[k].name == FormatIdName || leaves[k].name == ErrorFlagName)
      ==> leaves[k].size <= 4
  }

  lemma DecodedWordsFit(leaves: seq<Leaf>, buf: seq<byte>, pos: nat)
    requires pos <= |buf| && LeafWordsFit(leaves)
    ensures WordsFit(LeafDecode(leaves, buf, pos).fields)
  {
    var fields := LeafDecode(leaves, buf, pos).fields;
    LeafDecodeFields(leaves, buf, pos);
    forall i | 0 <= i < |fields| ensures DecodedAt(fields[i], leaves, buf, pos, i) { }
  }

  /**
    The message decoder: checks the tree, decodes the header's leaves, scans
    them for the error flag and the format identifier, and decodes the body
    format the identifier selects from where the header ended.
   */
  method DecodeMessage(tree: Arena, buf: seq<byte>, pos: nat) returns (result: Result<Message, DecodeError>, next: nat)
    requires WellFormed(tree) && pos <= |buf|
    requires HeaderNode(tree).Some? ==> LeafWordsFit(tree.nodes[HeaderNode(tree).value].leaves)
    ensures (result, next) == Decode(tree, buf, pos)
  {
    if tree.cursor.None? {
      return Err(NoTree), pos;
    }
    var root := tree.cursor.value;
    if tree.nodes[root].name != RootName {
      return Err(NotRoot(tree.nodes[root].name)), pos;
    }
    var h := FindChild(tree.nodes, root, HeaderName);
    if h.None? {
      return Err(SchemaMissing(HeaderName)), pos;
    }
    var header := DecodeLeaves(tree.nodes[h.value].leaves, buf, pos);
    if header.error.Some? {
      return Err(header.error.value), header.next;
    }
    DecodedWordsFit(tree.nodes[h.value].leaves, buf, pos);
    var id, hasId, flag, hasFlag := ScanHeader(header.fields);
    if !hasFlag || flag > 0 {
      return Err(Rejected(if hasFlag then Some(flag) else None)), header.next;
    }
    if !hasId {
      return Err(DiscriminantMissing), header.next;
    }
    var name := BodyName(id);
    if name.None? {
      return Err(UnknownBodyFormat(id)), header.next;
    }
    var b := FindChild(tree.nodes, root, name.value);
    if b.None? {
      return Err(UnknownBodyFormat(id)), header.next;
    }
    var body := DecodeLeaves(tree.nodes[b.value].leaves, buf, header.next);
    if body.error.Some? {
      return Err(body.error.value), body.next;
    }
    return Ok(Message(header.fields, body.fields)), body.next;
  }
}
