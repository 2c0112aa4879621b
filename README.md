# MessageParser in Dafny

MessageParser reads a message schema from a line-oriented XML-like text and
builds a tree from it. The root node is `messageformats`. It holds a
`headerformat` node and one `bodyformatN` node per body format. Every node
carries named leaves, and each leaf declares a field size in bytes. The
program then decodes a binary message against that tree:

- it reads the header's fields in declared order from a forward-only cursor;
- it picks out the `messageformatID` and `errorflag` fields by name;
- when the flag is zero, it reads the fields of the body format that the
  identifier selects;
- finally, it releases the tree recursively.

The model follows `MessageParser.c` in five modules:

- `Wrappers`: `Option` and `Result`.
- `SchemaText`: the text side.
  - Line normalisation (`stripunwanted`) as the pure function `Stripped`
    and the in-place method `StripUnwanted` on a `char` array.
  - `strchr` as `Find`.
  - The decimal reading of leaf sizes.
  - Sorting a normalised line into an opening tag, a closing tag or a leaf
    line (`ClassifyLine`, the parsing half of `parseline`).
- `SchemaTree`: the tree and cursor the builder keeps.
  - An arena of nodes addressed by index, with the parent stored as an
    index. A node always comes after its parent, so the root is node 0.
  - The invariant `WellFormed`.
  - The three edits a line makes (`AddChild`, `Ascend`, `AppendLeaf`).
  - `ApplyLine`, the tree-editing half of `parseline`.
  - The per-line loop of `main` as the fold `Build`.
  - Child lookup by name.
  - Descendant reasoning used for the release.
- `SchemaBuilder`: the class `Builder`, whose fields `nodes` and `cursor`
  are updated in place:
  - `ParseLine` applies one line;
  - `ParseLines` is the reading loop;
  - `FreeTree`, `FreeNode` and `FreeChildren` are the recursive release of
    `freexmltree`.
- `Decoder`: the decode engine.
  - `LeafDecode` specifies the decoding of one node's leaves and
    `DecodeLeaves` is the loop that implements it.
  - The header scan reads the identifier and the flag into words
    (`HeaderWord`, `ScanHeader`). The words are unbounded naturals; see
    "Left out".
  - `BodyName` builds the body format name.
  - `Decode` specifies the whole message and `DecodeMessage` implements it.

Departures from the C code, where it has no defined behaviour or is wrong:

- A node's leaf and child counts start at zero. In the C code no new node
  has them initialised: not the root node allocated at MessageParser.c:247,
  and not a child node in the array grown by `malloc` or `realloc` at
  MessageParser.c:256 and MessageParser.c:264.
- A missing `headerformat` node is the error `SchemaMissing`. The C code
  dereferences NULL here.
- A line that refers to the current node before any node exists is the
  error `NoCurrentNode`. The C code dereferences NULL in this case.
- A line without `<`, or without `>`, is the error `MissingTag`. So is a
  line whose first `>` comes before its first `<`. In the C code the tag
  length at MessageParser.c:209 is then computed from a null pointer, or
  wraps around below zero as an unsigned number. The copy of the tag name
  at MessageParser.c:217 then reads from a null pointer or writes past the
  end of `tag_name`.
- A failure while decoding the header's or the body's leaves is passed on
  as the message's error. The C code ignores the result of `decodeleaves`
  and goes on to read uninitialised fields.
- A leaf that does not fit in what is left of the buffer is the error
  `Underrun`. The C code reads past the buffer.
- Each field's payload is exactly its declared number of bytes (see
  Findings).
- The text of a leaf size is read as a decimal numeral. The empty text reads
  as 0, as `atoi` gives. Any other non-numeral is the error `BadNumber`,
  where `atoi` would read a prefix.
- `stripunwanted` removes spaces, tabs and newlines in three passes. The
  model removes them in one pass. On every line for which the three passes
  are defined, this leaves the same characters in the same order.
- A line made only of blanks, such as the empty line `"\n"`, normalises to
  the empty line. Its length is then refused as at MessageParser.c:202, so
  the reading loop stops there (`BlankLineStopsBuild`). In the C code the
  first pass leaves such a line empty. `strlen(line)-1` at
  MessageParser.c:175 then wraps around to the largest unsigned value, and
  `line[idx]` at MessageParser.c:176 reads out of bounds.
- A schema without any tag line, such as an empty file or one holding only
  comments, leaves no node and no cursor while reading succeeds. Decoding
  is then refused with `NoTree`, and releasing the tree does nothing
  (`FreeTree`). In the C code `current` stays NULL and reading still counts
  as a success. `main` therefore passes NULL to `printxmltree` at
  MessageParser.c:114, which dereferences it at MessageParser.c:360; that is
  the first failure. `decodemessage` would refuse the NULL tree at
  MessageParser.c:425-428, and `freexmltree(NULL)` at MessageParser.c:146
  would dereference it again at MessageParser.c:595.
- A line is a sequence of characters, and its length is the number of
  characters. `strlen` at MessageParser.c:200 counts bytes, and a NUL byte
  ends the line for `strlen` and `strchr`. The two agree only on ASCII text
  without NUL, which is what the model assumes. A line of at most 99
  characters but more than 99 bytes in UTF-8 is accepted by the model and
  refused by the C code.
- A header without `messageformatID` is the error `DiscriminantMissing`, and
  an identifier of 10 or more matches no body format (see Findings).

## Model

| member | source | states |
|---|---|---|
| SchemaText.Stripped | MessageParser.c:155-194 | the normalised line has no space, tab or newline and is no longer than the input |
| SchemaText.StrippedAppend | MessageParser.c:155-194 | normalisation works character by character: stripping a concatenation is the concatenation of the stripped parts |
| SchemaText.StrippedKeepsOthers | MessageParser.c:155-194 | every other character keeps its number of occurrences |
| SchemaText.StrippedFixedPoint | MessageParser.c:155-194 | a line is left unchanged exactly when it holds no blank |
| SchemaText.StrippedIdempotent | MessageParser.c:155-194 | stripping twice is stripping once |
| SchemaText.StripUnwanted | MessageParser.c:155-194 | compacting the array in place leaves, as its first `newLength` characters, exactly the stripped original line |
| SchemaText.Find | MessageParser.c:207-208 | the first position holding the character; none exactly when the character does not occur |
| SchemaText.FindAt | MessageParser.c:207-208 | a position holding the character with none before it is the one found |
| SchemaText.Decimal | MessageParser.c:327 | `atoi` on a digit string: the decimal value, most significant digit first; it is 0 exactly when every digit is `0`, the empty text included |
| SchemaText.DecimalOfNumeral | MessageParser.c:327 | reading back the numeral of n gives n |
| SchemaText.ClassifyLine | MessageParser.c:196-235 | length refused exactly when it is 0 or over 99; an opening tag is exactly `<name>` with no `>` or `/` in the name; a closing tag is one tag whose name holds `/`; a malformed leaf line has no `<` after its first `>`; `MissingTag` exactly when a line of acceptable length lacks `<` or `>`, or has its first `>` before its first `<` |
| SchemaText.ClassifyLeaf | MessageParser.c:306-327 | a leaf line is read with the tag's name, and its size is the decimal value of the text between the tag's `>` and the next `<`; the line is malformed exactly when no `<` follows the tag's `>`; it is `BadNumber` exactly when that text is not all digits; no other error arises |
| SchemaText.SizeText | MessageParser.c:309-324 | the size text is absent exactly when no `<` follows the tag's `>`; otherwise it is the text right after the `>`, holds no `<`, and is followed by a `<` |
| SchemaText.SlashTagClassified | MessageParser.c:235-237 | any line that is one tag, with a `/` anywhere in its name, is a closing tag (so `<a/>` closes too) |
| SchemaText.OpenTextClassified | MessageParser.c:235-237 | `<name>` is read back as an opening tag of that name |
| SchemaText.CloseTextClassified | MessageParser.c:235-237 | `</name>` is read back as a closing tag |
| SchemaText.LeafTextClassified | MessageParser.c:306-327 | `<name>N</name>` is read back as a leaf of that name and size N |
| SchemaTree.AddChild | MessageParser.c:237-290 | the first tag creates the root with no parent; any later one appends a new last child to the cursor node, with the cursor node as parent; the cursor moves to the new node and no other node changes |
| SchemaTree.Ascend | MessageParser.c:293-299 | the nodes are unchanged; the cursor moves to the parent, and stays at the root |
| SchemaTree.AppendLeaf | MessageParser.c:328-352 | the leaf becomes the last leaf of the cursor node; nothing else changes |
| SchemaTree.AddChildKeepsWellFormed | MessageParser.c:237-290 | opening a node keeps parents before children, the parent and child links consistent and each child list sorted and complete |
| SchemaTree.AppendLeafKeepsWellFormed | MessageParser.c:328-352 | adding a leaf keeps the tree invariant |
| SchemaTree.ApplyLine | MessageParser.c:196-356 | the new tree is well formed; a length error occurs exactly for lengths 0 or over 99; every other error but NoCurrentNode is the line's classification error; a line is refused exactly when it is malformed or, not being an opening tag, comes before any node |
| SchemaTree.OpenLineApplied | MessageParser.c:237-290 | an opening-tag line adds the node AddChild describes |
| SchemaTree.CloseLineApplied | MessageParser.c:293-299 | a closing-tag line only moves the cursor up, and is refused before any node exists |
| SchemaTree.SlashLineApplied | MessageParser.c:235-299 | any single-tag line with a `/` in its name only moves the cursor up, and is refused before any node exists |
| SchemaTree.LeafLineApplied | MessageParser.c:306-352 | a leaf line appends one leaf to the cursor node, and is refused before any node exists |
| SchemaTree.LeafShapedLineApplied | MessageParser.c:207-352 | any line whose first tag does not span it (such as `<a>07</b>` or `x<a>7<`) is malformed when no `<` follows the tag, refused when the size text is not a numeral, refused before any node exists, and otherwise appends the leaf named by the tag with the size read from the text up to the next `<` |
| SchemaTree.Build | MessageParser.c:85-103 | the tree after every line of the fold is well formed |
| SchemaTree.Uncommented | MessageParser.c:88-92 | no remaining line holds the comment marker, every remaining line is an input line, and every input line without the marker remains |
| SchemaTree.BuildIgnoresComments | MessageParser.c:88-92 | the schema builds the same with its comment lines removed |
| SchemaTree.BlankLineStopsBuild | MessageParser.c:155-205 | a line of blanks only normalises to the empty line, which is refused, so reading stops there with the state before it |
| SchemaTree.BuildAppend | MessageParser.c:97-101 | the loop goes on through a concatenation exactly when the first part succeeded, and stops at the first refused line otherwise |
| SchemaTree.FirstNamed | MessageParser.c:446-451 | the position of the first child with the name; none exactly when no child has it |
| SchemaTree.FindChild | MessageParser.c:446-451 | the child found has the name and the searched node as parent, and no child listed before it has the name; none found exactly when no child has the name |
| SchemaTree.DescendsFromRoot | MessageParser.c:592-606 | in a well-formed tree every node lies below the root |
| SchemaTree.DescendsThroughChild | MessageParser.c:598-601 | a node strictly below another lies below one of its children |
| SchemaTree.SiblingSubtreesDisjoint | MessageParser.c:598-601 | the subtrees of two different children share no node |
| SchemaBuilder.Builder.constructor | MessageParser.c:67 | the builder starts with no node and no cursor |
| SchemaBuilder.Builder.ParseLine | MessageParser.c:196-356 | the line succeeds exactly when ApplyLine accepts it; the new state is ApplyLine's result, and a refused line changes nothing |
| SchemaBuilder.Builder.ParseLines | MessageParser.c:85-103 | the state and the success flag after the loop are exactly the fold Build over the lines |
| SchemaBuilder.Builder.FreeTree | MessageParser.c:592-606 | every node below the cursor ends with no leaves and no children; other nodes, the names, the parents and the cursor are unchanged; from the root the whole tree is cleared; without a cursor nothing changes |
| SchemaBuilder.Builder.FreeNode | MessageParser.c:592-606 | the subtree of node i is cleared and nothing outside it changes |
| SchemaBuilder.Builder.FreeChildren | MessageParser.c:598-601 | the subtrees of the listed children are cleared one after another, and nothing else changes |
| SchemaBuilder.SubtreeIsChildSubtrees | MessageParser.c:598-601 | a node's subtree is the node and its children's subtrees |
| Decoder.LeafDecode | MessageParser.c:544-591 | the cursor never moves backwards or past the buffer, and at most one field per leaf |
| Decoder.LeafDecodeNext | MessageParser.c:587 | the cursor moves by exactly the declared sizes of the leaves decoded |
| Decoder.LeafDecodeFields | MessageParser.c:576-584 | field i has leaf i's name and size, and its payload is the bytes at the offset given by the sizes of the leaves before it |
| Decoder.LeafDecodeStops | MessageParser.c:555-558 | every leaf decoded is below 1024 bytes; the decoding stops only at the first leaf that is too large or does not fit, and reports which one |
| Decoder.LeafDecodeSucceeds | MessageParser.c:544-591 | a node decodes exactly when all its leaves are below 1024 bytes and fit together in the buffer, and the cursor then ends past their total size |
| Decoder.LeafDecodeSequential | MessageParser.c:587 | decoding a concatenation of leaves is decoding the first part, then the rest from where it stopped |
| Decoder.DecodeLeaves | MessageParser.c:544-591 | the loop's fields, cursor and outcome equal LeafDecode |
| Decoder.LittleEndian | MessageParser.c:476 | the value of p bytes is below 256 to the power p |
| Decoder.LittleEndianZero | MessageParser.c:491 | a value is zero exactly when all its bytes are |
| Decoder.Overlay | MessageParser.c:474-482 | `memcpy` of a payload over a word stored least significant byte first: the result's low bytes are the payload's little-endian value, and above them the word's high bytes are kept |
| Decoder.HeaderWord | MessageParser.c:470-488 | the word the scan leaves for a name: 0 to start with, then every field of that name copied over it in order; below 2^32 whenever every such field has at most 4 bytes |
| Decoder.OverlayOnZero | MessageParser.c:470-477 | copying a payload over a zero word gives the payload's value |
| Decoder.HeaderWordAbsent | MessageParser.c:470-472 | without a field of that name the word keeps its initial 0 |
| Decoder.HeaderWordSingle | MessageParser.c:474-482 | with exactly one field of that name, wherever it stands, the word is that field's value |
| Decoder.ScanHeader | MessageParser.c:470-488 | the identifier and the flag, and whether each is present, equal HasField and HeaderWord over the fields |
| Decoder.BodyName | MessageParser.c:500-502 | a name exists exactly for identifiers below 10, and it is the prefix followed by a digit string that reads back as the identifier |
| Decoder.BodyNameInjective | MessageParser.c:500-509 | different identifiers select different body names |
| Decoder.BodyNameAsWritten | MessageParser.c:500-502 | the name as the C code composes it: the prefix and at most one more character |
| Decoder.AsWrittenAgreesBelowTen | MessageParser.c:500-502 | below 10 the C name and the corrected name agree |
| Decoder.AsWrittenWideIdSelectsLetter | MessageParser.c:500-502 | identifier 17 selects `bodyformatA` and 208 selects `bodyformat`, where the corrected name selects nothing |
| Decoder.AsWrittenMissingIdSelectsBodyZero | MessageParser.c:470-502 | a header without an identifier makes the C code look up `bodyformat0` |
| Decoder.AsWrittenCopyOverflows | MessageParser.c:580-581 | a 16-byte leaf passes the size check but overflows the 4 bytes the C code allocates; the corrected payload has 16 bytes |
| Decoder.HeaderNode | MessageParser.c:424-451 | a header node is found exactly when the cursor node is named `messageformats` and has a child named `headerformat`; the one found is the first such child |
| Decoder.BodyNode | MessageParser.c:500-516 | a body node is found exactly when the identifier is below 10 and the cursor node has a child named with the prefix and the identifier's digit; the one found is the first such child |
| Decoder.Decode | MessageParser.c:419-542 | the cursor only moves forward and stays within the buffer |
| Decoder.DecodeBody | MessageParser.c:489-541 | what follows a header decoded without error; the cursor only moves forward from where the header ended and stays within the buffer |
| Decoder.DecodeAfterHeader | MessageParser.c:459-541 | once the header's leaves decode without error, decoding goes on with the flag and identifier checks and the body, from where the header ended |
| Decoder.DecodeHeaderFails | MessageParser.c:459-465 | a header leaf that is oversized or does not fit is the message's error, with the cursor where the leaf decoder stopped, which is where that leaf begins |
| Decoder.DecodeBodyFails | MessageParser.c:518-523 | after an accepted header, a body leaf that is oversized or does not fit is the message's error, with the cursor where the leaf decoder stopped, which is where that leaf begins |
| Decoder.DecodeNeedsHeader | MessageParser.c:424-451 | without a tree, a root or a header node nothing is read, and the error says which was missing |
| Decoder.DecodeGatesOnErrorFlag | MessageParser.c:491-494 | a missing or nonzero error flag is rejected right after the header, before any byte of a body is read |
| Decoder.DecodeNeedsFormatId | MessageParser.c:496-498 | an accepted header without an identifier is an error right after the header |
| Decoder.DecodeOkReadsDeclaredLayout | MessageParser.c:419-542 | a decoded message is the header's leaves read from the cursor, a zero flag, an identifier, and the selected body's leaves read right after the header; the cursor ends past exactly both declared sizes |
| Decoder.DecodeOkWhenLayoutFits | MessageParser.c:419-542 | conversely, a message decodes whenever the header and the selected body exist, their leaves are below 1024 bytes and fit, and the header has a zero flag and an identifier |
| Decoder.DecodedWordsFit | MessageParser.c:476-481 | when the identifier and flag leaves are at most 4 bytes, so are their decoded payloads |
| Decoder.DecodeNoBodyFormat | MessageParser.c:504-516 | when the header decodes with a zero flag and an identifier but no body format of that identifier exists, the result is `UnknownBodyFormat` of the identifier and the cursor stops right after the header |
| Decoder.DecodeMessage | MessageParser.c:419-542 | the result and the final cursor equal Decode, for any tree whose header node, if there is one, has identifier and flag leaves of at most 4 bytes |

## Left out

- `printxmltree` and `writemessage` are left out. Both only print, or fill a
  fixed test buffer. All `printf` output is left out too.
- The body print loop at the end of `decodemessage` is left out. It reads
  `data+i` where `data+j` is evidently meant, and it has no effect.
- Character encodings are left out. A line is a sequence of characters,
  taken to be ASCII text without NUL, so its length in characters is the
  byte count that `strlen` gives.
- File I/O is left out. The schema is given as a sequence of lines, and the
  message as a byte sequence with a starting cursor.
- `malloc`, `realloc` and `free` are left out, and so are the fixed 100-byte
  name and line buffers. A released node is shown as having no leaves and
  no children. The 99-character line limit is kept.
- The per-line copy into a `char` array in `ParseLines` stands in for the
  `getline` buffer.
- Decoder.Overlay: `memcpy` into an `unsigned` is modelled as little-endian
  and is only well defined for payloads of at most 4 bytes.
  `ScanHeader` therefore requires that of the identifier and flag fields,
  and `DecodeMessage` requires it only of the identifier and flag leaves of
  the header node, when there is one.
- Decoder.HeaderWord: the word is an unbounded natural number, so a payload
  of more than 4 bytes is not cut to 32 bits. With payloads of at most 4
  bytes, the contract states that the word stays below 2^32.
- SchemaText.Decimal: `atoi` overflow and its signed result are not
  modelled. A size is an unbounded natural number.
- SchemaTree.Build: the `getline` failure path, and the program's exit code
  after a failed parse, are not modelled.
- The output buffer handed to `decodemessage` is left out. The C code never
  writes to it.

## Findings

| source | as written | input that shows it | evidently intended | confidence | as-written member | corrected member |
|---|---|---|---|---|---|---|
| MessageParser.c:496-498 | a header without `messageformatID` only prints a warning; decoding goes on with identifier 0 | a header whose only leaf is `errorflag` = 0 | refuse the message, since its body format is unknown | not executed | Decoder.AsWrittenMissingIdSelectsBodyZero | Decoder.DecodeNeedsFormatId |
| MessageParser.c:500-502 | the name's last character is `48 + ID` truncated to a byte, so an ID of 10 or more names a letter or other character, and ID 208 ends the name early | ID 17 selects `bodyformatA` | only IDs 0 to 9 select a body format | not executed | Decoder.AsWrittenWideIdSelectsLetter | Decoder.BodyName |
| MessageParser.c:580-581 | each field's storage is `sizeof(leaf->data)` = 4 bytes, but `leaf->data` bytes are copied into it | a leaf of 16 bytes, as `data_1` in the sample message | storage of the leaf's declared size | not executed | Decoder.AsWrittenCopyOverflows | Decoder.LeafDecodeFields |
