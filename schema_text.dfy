/**
  The textual side of the schema language: normalising one raw line
  (removing blanks), locating tag brackets, reading the decimal size of a
  leaf, and sorting a normalised line into one of the three line shapes.
 */
module SchemaText {
  import opened Wrappers

  /** Longest normalised line the schema parser accepts. */
  const MaxLineLength := 99

  /** The marker that turns a whole raw line into a comment. */
  const CommentMarker := '!'

  // ---------------------------------------------------------------------
  // Normalisation
  // ---------------------------------------------------------------------

  /** The three characters the normaliser removes. */
  predicate IsBlank(c: char) {
    c == ' ' || c == '\t' || c == '\n'
  }

  predicate NoBlanks(s: string) {
    forall i :: 0 <= i < |s| ==> !IsBlank(s[i])
  }

  /** The line with every blank removed and every other character kept in order. */
  function Stripped(s: string): (r: string)
    ensures |r| <= |s|
    ensures NoBlanks(r)
    decreases |s|
  {
    if s == [] then []
    else
      var init := Stripped(s[..|s| - 1]);
      if IsBlank(s[|s| - 1]) then init else init + [s[|s| - 1]]
  }

  /** Stripping works piecewise, so the kept characters stay in their original order. */
  lemma {:induction false} StrippedAppend(a: string, b: string)
    ensures Stripped(a + b) == Stripped(a) + Stripped(b)
    decreases |b|
  {
    if b == [] {
      assert a + b == a;
    } else {
      var b' := b[..|b| - 1];
      assert (a + b)[..|a + b| - 1] == a + b';
      assert (a + b)[|a + b| - 1] == b[|b| - 1];
      StrippedAppend(a, b');
    }
  }

  /** Every non-blank character occurs in the stripped line exactly as often as in the raw line. */
  lemma {:induction false} StrippedKeepsOthers(s: string)
    ensures forall c :: !IsBlank(c) ==> multiset(Stripped(s))[c] == multiset(s)[c]
    decreases |s|
  {
    if s != [] {
      var init := s[..|s| - 1];
      StrippedKeepsOthers(init);
      assert s == init + [s[|s| - 1]];
    }
  }

  /** A line is left unchanged exactly when it holds no blanks; hence stripping is idempotent. */
  lemma {:induction false} StrippedFixedPoint(s: string)
    ensures Stripped(s) == s <==> NoBlanks(s)
    decreases |s|
  {
    if s != [] && NoBlanks(s) {
      StrippedFixedPoint(s[..|s| - 1]);
      assert s == s[..|s| - 1] + [s[|s| - 1]];
    }
  }

  lemma StrippedIdempotent(s: string)
    ensures Stripped(Stripped(s)) == Stripped(s)
  {
    StrippedFixedPoint(Stripped(s));
  }

  /**
    The in-place normaliser: the characters of `line` that are not blanks are
    moved to its front, in order, and their number is returned.
   */
  method StripUnwanted(line: array<char>) returns (newLength: nat)
    modifies line
    ensures newLength <= line.Length
    ensures line[..newLength] == Stripped(old(line[..]))
  {
    ghost var original := line[..];
    newLength := 0;
    var i := 0;
    while i < line.Length
      invariant newLength <= i <= line.Length
      invariant line[..newLength] == Stripped(original[..i])
      invariant line[i..] == original[i..]
    {
      var c := line[i];
      assert c == original[i];
      assert original[..i + 1][..i] == original[..i];
      assert line[i + 1..] == original[i + 1..];
      if !IsBlank(c) {
        ghost var kept := line[..newLength];
        line[newLength] := c;
        assert line[..newLength + 1] == kept + [c];
        assert line[i + 1..] == original[i + 1..];
        newLength := newLength + 1;
      }
      i := i + 1;
    }
    assert original[..line.Length] == original;
  }

  // ---------------------------------------------------------------------
  // Searching and numbers
  // ---------------------------------------------------------------------

  /** Position of the first occurrence of `c` in `s`, if any. */
  function Find(s: string, c: char): (r: Option<nat>)
    ensures r.Some? ==> r.value < |s| && s[r.value] == c && c !in s[..r.value]
    ensures r.None? <==> c !in s
    decreases |s|
  {
    if s == [] then None
    else if s[0] == c then Some(0)
    else match Find(s[1..], c)
      case None => None
      case Some(k) =>
        assert s[..k + 1] == [s[0]] + s[1..][..k];
        Some(k + 1)
  }

  /** The first occurrence is unique: any position that holds `c` with no earlier `c` is it. */
  lemma FindAt(s: string, c: char, k: nat)
    requires k < |s| && s[k] == c && c !in s[..k]
    ensures Find(s, c) == Some(k)
  {
    var r := Find(s, c);
    assert forall j :: 0 <= j < k ==> s[j] != c by {
      forall j | 0 <= j < k ensures s[j] != c { assert s[..k][j] == s[j]; }
    }
    assert forall j :: 0 <= j < r.value ==> s[j] != c by {
      forall j | 0 <= j < r.value ensures s[j] != c { assert s[..r.value][j] == s[j]; }
    }
  }

  predicate IsDigit(c: char) {
    '0' <= c <= '9'
  }

  predicate AllDigits(s: string) {
    forall i :: 0 <= i < |s| ==> IsDigit(s[i])
  }

  /** The value of a decimal numeral; the empty numeral reads as 0. */
  function Decimal(s: string): (r: nat)
    requires AllDigits(s)
    ensures r == 0 <==> forall k :: 0 <= k < |s| ==> s[k] == '0'
    decreases |s|
  {
    if s == [] then 0
    else
      assert forall k :: 0 <= k < |s| - 1 ==> s[..|s| - 1][k] == s[k];
      Decimal(s[..|s| - 1]) * 10 + (s[|s| - 1] as int - '0' as int)
  }

  /** The shortest decimal numeral of `n`. */
  function Numeral(n: nat): (r: string)
    ensures 1 <= |r| && AllDigits(r)
    decreases n
  {
    if n < 10 then [(n + '0' as int) as char]
    else Numeral(n / 10) + [(n % 10 + '0' as int) as char]
  }

  /** Reading back a written numeral gives the number. */
  lemma {:induction false} DecimalOfNumeral(n: nat)
    ensures Decimal(Numeral(n)) == n
    decreases n
  {
    if n >= 10 {
      DecimalOfNumeral(n / 10);
      var s := Numeral(n);
      assert s[..|s| - 1] == Numeral(n / 10);
    }
  }

  // ---------------------------------------------------------------------
  // Line shapes
  // ---------------------------------------------------------------------

  /** What a normalised line asks the tree builder to do. */
  datatype Shape =
    | OpenTag(name: string)                // `<name>`: open a new node
    | CloseTag                             // `</...>`: go back to the parent
    | LeafLine(name: string, size: nat)    // `<name>N</name>`: a leaf of N bytes

  /** Why a line was refused. */
  datatype LineError =
    | LineLength(length: nat)   // empty after normalisation, or longer than MaxLineLength
    | MissingTag                // no `<`, no `>`, or the first `>` comes before the first `<`
    | MalformedLeaf             // a leaf line with no `<` after its first `>`
    | BadNumber                 // the text of a leaf line is not a decimal numeral
    | NoCurrentNode             // a closing tag or a leaf before any node was opened

  /**
    Sorts a normalised line. The tag is the text between the first `<` and
    the first `>`; the line is a single tag when that tag spans the whole
    line, a closing one when its name holds a `/`. Any other line is a leaf
    line whose size is the text between the first `>` and the next `<`.
   */
  function ClassifyLine(line: string): (r: Result<Shape, LineError>)
    ensures (r.Err? && r.error.LineLength?) <==> |line| == 0 || |line| > MaxLineLength
    ensures r.Ok? && r.value.OpenTag? ==>
              line == ['<'] + r.value.name + ['>'] && '>' !in r.value.name && '/' !in r.value.name
    ensures r.Ok? && r.value.CloseTag? ==>
              2 <= |line| && line[0] == '<' && line[|line| - 1] == '>'
              && '>' !in line[1..|line| - 1] && '/' in line[1..|line| - 1]
    ensures r == Err(MalformedLeaf) ==>
              Find(line, '>').Some? && '<' !in line[Find(line, '>').value..]
    ensures r == Err(MissingTag) <==>
              && 0 < |line| <= MaxLineLength
              && (Find(line, '<').None? || Find(line, '>').None? || Find(line, '>').value < Find(line, '<').value)
  {
    if |line| == 0 || |line| > MaxLineLength then Err(LineLength(|line|))
    else match Find(line, '<')
      case None => Err(MissingTag)
      case Some(tagStart) =>
        match Find(line, '>')
        case None => Err(MissingTag)
        case Some(tagEnd) =>
          if tagEnd < tagStart then Err(MissingTag)
          else
            var name := line[tagStart + 1..tagEnd];
            if tagEnd - tagStart + 1 == |line| then
              assert line == ['<'] + name + ['>'];
              if '/' in name then Ok(CloseTag) else Ok(OpenTag(name))
            else ClassifyLeaf(line, name, tagEnd)
  }

  /**
    The text of a leaf line's size: what lies between the `>` at `tagEnd` and
    the next `<`, or nothing when no `<` follows.
   */
  function SizeText(line: string, tagEnd: nat): (r: Option<string>)
    requires tagEnd < |line| && line[tagEnd] == '>'
    ensures r.None? <==> '<' !in line[tagEnd..]
    ensures r.Some? ==>
              && tagEnd + 1 + |r.value| < |line|
              && line[tagEnd + 1..tagEnd + 1 + |r.value|] == r.value
              && line[tagEnd + 1 + |r.value|] == '<'
              && '<' !in r.value
  {
    match Find(line[tagEnd..], '<')
    case None => None
    case Some(dataEnd) =>
      var rest := line[tagEnd..];
      assert rest[..dataEnd] == [line[tagEnd]] + line[tagEnd + 1..tagEnd + dataEnd];
      Some(line[tagEnd + 1..tagEnd + dataEnd])
  }

  /**
    A line with more than its first tag: a leaf of the tag's name whose size
    is the decimal value of its size text.
   */
  function ClassifyLeaf(line: string, name: string, tagEnd: nat): (r: Result<Shape, LineError>)
    requires tagEnd < |line| && line[tagEnd] == '>'
    ensures r == Err(MalformedLeaf) <==> '<' !in line[tagEnd..]
    ensures r == Err(BadNumber) <==> SizeText(line, tagEnd).Some? && !AllDigits(SizeText(line, tagEnd).value)
    ensures r.Ok? <==> SizeText(line, tagEnd).Some? && AllDigits(SizeText(line, tagEnd).value)
    ensures r.Ok? ==> r.value == LeafLine(name, Decimal(SizeText(line, tagEnd).value))
    ensures r.Err? ==> r.error == MalformedLeaf || r.error == BadNumber
  {
    match SizeText(line, tagEnd)
    case None => Err(MalformedLeaf)
    case Some(text) => if AllDigits(text) then Ok(LeafLine(name, Decimal(text))) else Err(BadNumber)
  }

  // The three line shapes written out; ClassifyLine reads each back.

  function OpenText(name: string): string {
    ['<'] + name + ['>']
  }

  function CloseText(name: string): string {
    ['<', '/'] + name + ['>']
  }

  function LeafText(name: string, size: nat): string {
    OpenText(name) + Numeral(size) + CloseText(name)
  }

  lemma OpenTextClassified(name: string)
    requires '>' !in name && '/' !in name && |name| + 2 <= MaxLineLength
    ensures ClassifyLine(OpenText(name)) == Ok(OpenTag(name))
  {
    var line := OpenText(name);
    assert Find(line, '<') == Some(0);
    assert line[..|name| + 1] == ['<'] + name;
    FindAt(line, '>', |name| + 1);
    assert line[1..|name| + 1] == name;
  }

  /** Any line that is one tag with a `/` somewhere in its name is a closing tag. */
  lemma SlashTagClassified(line: string)
    requires 2 <= |line| <= MaxLineLength && line[0] == '<' && line[|line| - 1] == '>'
    requires '>' !in line[1..|line| - 1] && '/' in line[1..|line| - 1]
    ensures ClassifyLine(line) == Ok(CloseTag)
  {
    assert Find(line, '<') == Some(0);
    assert line[..|line| - 1] == [line[0]] + line[1..|line| - 1];
    FindAt(line, '>', |line| - 1);
  }

  lemma CloseTextClassified(name: string)
    requires '>' !in name && |name| + 3 <= MaxLineLength
    ensures ClassifyLine(CloseText(name)) == Ok(CloseTag)
  {
    var line := CloseText(name);
    assert Find(line, '<') == Some(0);
    assert line[..|name| + 2] == ['<', '/'] + name;
    FindAt(line, '>', |name| + 2);
    assert line[1..|name| + 2][0] == '/';
  }

  lemma LeafTextClassified(name: string, size: nat)
    requires '>' !in name && 2 * |name| + |Numeral(size)| + 5 <= MaxLineLength
    ensures ClassifyLine(LeafText(name, size)) == Ok(LeafLine(name, size))
  {
    LeafTextTag(name, size);
    LeafTextData(name, size);
    DecimalOfNumeral(size);
    ClassifiedAsLeaf(LeafText(name, size), |name| + 1, |Numeral(size)| + 1);
  }

  /** A line whose first tag opens it and is followed by more text is a leaf line. */
  lemma ClassifiedAsLeaf(line: string, tagEnd: nat, dataEnd: nat)
    requires 0 < |line| <= MaxLineLength
    requires Find(line, '<') == Some(0) && Find(line, '>') == Some(tagEnd) && tagEnd + 1 < |line|
    requires Find(line[tagEnd..], '<') == Some(dataEnd)
    requires AllDigits(line[tagEnd + 1..tagEnd + dataEnd])
    ensures ClassifyLine(line) == Ok(LeafLine(line[1..tagEnd], Decimal(line[tagEnd + 1..tagEnd + dataEnd])))
  {
    LeafLineIsLeafPart(line, 0, tagEnd);
    SizeTextAt(line, tagEnd, dataEnd);
  }

  /**
    A line whose first `<` comes before its first `>` and whose first tag is
    not the whole line is read as a leaf line, named by that tag, wherever
    the tag starts.
   */
  lemma LeafLineIsLeafPart(line: string, tagStart: nat, tagEnd: nat)
    requires 0 < |line| <= MaxLineLength
    requires Find(line, '<') == Some(tagStart) && Find(line, '>') == Some(tagEnd)
    requires tagStart <= tagEnd && tagEnd - tagStart + 1 != |line|
    ensures line[tagEnd] == '>'
    ensures ClassifyLine(line) == ClassifyLeaf(line, line[tagStart + 1..tagEnd], tagEnd)
  {
  }

  /** A line of blanks only normalises to the empty line. */
  lemma {:induction false} BlankLineStripped(s: string)
    requires forall k :: 0 <= k < |s| ==> IsBlank(s[k])
    ensures Stripped(s) == []
    decreases |s|
  {
    if s != [] {
      BlankLineStripped(s[..|s| - 1]);
    }
  }

  /** The size text ends at the first `<` after the tag's `>`. */
  lemma SizeTextAt(line: string, tagEnd: nat, dataEnd: nat)
    requires tagEnd < |line| && line[tagEnd] == '>'
    requires Find(line[tagEnd..], '<') == Some(dataEnd)
    ensures 1 <= dataEnd && SizeText(line, tagEnd) == Some(line[tagEnd + 1..tagEnd + dataEnd])
  {
  }

  /** In a leaf line, the first tag is the opening one and spans `name`. */
  lemma LeafTextTag(name: string, size: nat)
    requires '>' !in name
    ensures Find(LeafText(name, size), '<') == Some(0)
    ensures Find(LeafText(name, size), '>') == Some(|name| + 1)
    ensures LeafText(name, size)[1..|name| + 1] == name
  {
    var line := LeafText(name, size);
    assert line == ['<'] + name + (['>'] + Numeral(size) + CloseText(name));
    assert line[..|name| + 1] == ['<'] + name;
    FindAt(line, '>', |name| + 1);
  }

  /** In a leaf line, the first `<` after the opening tag ends the numeral. */
  lemma LeafTextData(name: string, size: nat)
    ensures |LeafText(name, size)| > |name| + 1
    ensures Find(LeafText(name, size)[|name| + 1..], '<') == Some(|Numeral(size)| + 1)
    ensures |name| + |Numeral(size)| + 2 <= |LeafText(name, size)|
    ensures LeafText(name, size)[|name| + 2..|name| + |Numeral(size)| + 2] == Numeral(size)
  {
    var digits := Numeral(size);
    var head := ['>'] + digits;
    var rest := LeafText(name, size)[|name| + 1..];
    assert rest == head + CloseText(name);
    assert rest[..|head|] == head;
    assert '<' !in head by {
      assert forall i :: 0 <= i < |digits| ==> digits[i] != '<';
    }
    FindAt(rest, '<', |head|);
  }
}
