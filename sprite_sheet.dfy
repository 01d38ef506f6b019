/** The sprite-sheet text format read by `parseSpriteSheet` and `countSpriteSheet`
    (not_yet_used/wbTexture.c:237-394):

        @ssv1            version line
        # comment
        name x y w h     one segment per line

    or the single text "a", meaning one segment covering the whole texture.

    A C string is modelled by its bytes before the terminating NUL, which sits just
    past the end of the sequence. The parsers advance a cursor; here the cursor is the
    remaining suffix of the text, and every scan returns the suffix it stops at. The
    C code can step its cursor past the terminator (a comment on the last line with
    no newline); the model reports that as an overrun instead of reading on. */
module SpriteSheet {
  import opened Bytes
  import opened Wrappers

  const TAB: u8 := 9
  const LF: u8 := 10
  const CR: u8 := 13
  const SPACE: u8 := 32
  const HASH_MARK: u8 := 35
  const SLASH: u8 := 47
  const DIGIT_ZERO: u8 := 48
  const DIGIT_NINE: u8 := 57
  const LETTER_A: u8 := 97
  /** "@ssv1" */
  const VERSION_LINE: seq<u8> := [64, 115, 115, 118, 49]

  datatype Rect = Rect(x: int, y: int, w: int, h: int)

  /** One parsed line: the name as it appears in the text, and the four numbers. */
  datatype Entry = Entry(name: seq<u8>, region: Rect)

  /** The fields of `Texture` the parser reads: its name and its size in pixels. */
  datatype Texture = Texture(name: seq<u8>, width: int, height: int)

  /** The fields of `TextureSegment` that are modelled: the 16-byte name field, the
      hash and the region. The pixel pointer and the float size are left out. */
  datatype Segment = Segment(name: seq<u8>, hash: u64, region: Rect)

  // ------------------------------------------------------------------
  // Characters

  /** isWhitespace: blank, tab or carriage return. */
  predicate IsWhitespace(c: u8)
    ensures IsWhitespace(c) <==> c in Ascii(" \t\r")
  {
    CharacterListings();
    c == SPACE || c == TAB || c == CR
  }

  /** isNumber: an ASCII decimal digit. */
  predicate IsNumber(c: u8)
    ensures IsNumber(c) <==> c in Ascii("0123456789")
  {
    CharacterListings();
    DIGIT_ZERO <= c <= DIGIT_NINE
  }

  /** The byte values of the two character lists. */
  lemma CharacterListings()
    ensures Ascii(" \t\r") == [SPACE, TAB, CR]
    ensures Ascii("0123456789") == [48, 49, 50, 51, 52, 53, 54, 55, 56, 57]
  {
  }

  /** A newline is not whitespace, which is why the parsers test for it separately,
      and no digit is whitespace, so a number run always ends a name-free scan. */
  lemma CharacterClasses(c: u8)
    ensures IsWhitespace(c) ==> c != LF && c != NUL && !IsNumber(c)
    ensures IsNumber(c) ==> c != LF && c != NUL && c != HASH_MARK
  {
  }

  /** The byte at position i of a C string; the terminator is at |s|. */
  function CharAt(s: seq<u8>, i: nat): (c: u8)
    ensures i < |s| ==> c == s[i]
    ensures i >= |s| ==> c == NUL
  {
    if i < |s| then s[i] else NUL
  }

  /** A byte read as a C `char` on a target where `char` is signed. */
  function CharValue(b: u8): (v: int)
    ensures -128 <= v < 128
    ensures b < 0x80 ==> v == b
  {
    if b < 0x80 then b else b - 0x100
  }

  // ------------------------------------------------------------------
  // stringToDecimal

  /** The value `stringToDecimal` accumulates over the run `d`: per character,
      `result = result * 10 + (d[i] - '0')`. */
  function Decimal(d: seq<u8>): int {
    if |d| == 0 then 0 else Decimal(d[..|d| - 1]) * 10 + (CharValue(d[|d| - 1]) - DIGIT_ZERO)
  }

  function Pow10(n: nat): (r: nat)
    ensures r >= 1
  {
    if n == 0 then 1 else 10 * Pow10(n - 1)
  }

  /** The decimal digits of `n`, most significant first, without leading zeros. */
  function Digits(n: nat): (r: seq<u8>)
    ensures |r| >= 1 && forall k :: 0 <= k < |r| ==> IsNumber(r[k])
  {
    if n < 10 then [DIGIT_ZERO + n] else Digits(n / 10) + [DIGIT_ZERO + n % 10]
  }

  /** A run of k digits stands for a value in [0, 10^k). */
  lemma {:induction false} DecimalRange(d: seq<u8>)
    requires forall k :: 0 <= k < |d| ==> IsNumber(d[k])
    ensures 0 <= Decimal(d) < Pow10(|d|)
  {
    if |d| > 0 {
      var init := d[..|d| - 1];
      assert forall k :: 0 <= k < |init| ==> init[k] == d[k];
      DecimalRange(init);
    }
  }

  /** Reading back the digits of `n` gives `n`. */
  lemma {:induction false} DecimalOfDigits(n: nat)
    ensures Decimal(Digits(n)) == n
  {
    if n >= 10 {
      var d := Digits(n);
      assert d[..|d| - 1] == Digits(n / 10);
      DecimalOfDigits(n / 10);
    }
  }

  /** stringToDecimal(s, len). The C result is an `i32`; the model keeps the exact
      value. */
  method StringToDecimal(s: seq<u8>, len: int) returns (result: int)
    requires len <= |s|
    ensures len <= 0 ==> result == 0
    ensures len > 0 ==> result == Decimal(s[..len])
  {
    result := 0;
    var i := 0;
    while i < len
      invariant 0 <= i <= |s| && (len <= 0 ==> i == 0) && (len > 0 ==> i <= len)
      invariant result == Decimal(s[..i])
    {
      assert s[..i + 1][..i] == s[..i];
      result := result * 10;
      result := result + (CharValue(s[i]) - DIGIT_ZERO);
      i := i + 1;
    }
  }

  // ------------------------------------------------------------------
  // matchstring

  /** The first `len` characters of both strings exist and agree. */
  predicate Matches(text: seq<u8>, a: seq<u8>, len: int) {
    len <= 0 || (len <= |text| && len <= |a| && text[..len] == a[..len])
  }

  /** matchstring(text, a, len): 1 exactly when the first `len` characters agree and
      neither string ends within them. */
  method MatchString(text: seq<u8>, a: seq<u8>, len: int) returns (r: bool)
    requires NUL !in text && NUL !in a
    ensures r <==> Matches(text, a, len)
  {
    var i := 0;
    while i < len
      invariant 0 <= i <= |text| && i <= |a|
      invariant len <= 0 || i <= len
      invariant text[..i] == a[..i]
    {
      if CharAt(text, i) != CharAt(a, i) {
        assert len <= |text| && len <= |a| ==> text[..len][i] != a[..len][i];
        return false;
      }
      if CharAt(text, i) == NUL || CharAt(a, i) == NUL {
        return false;
      }
      assert text[..i + 1] == text[..i] + [text[i]];
      assert a[..i + 1] == a[..i] + [a[i]];
      i := i + 1;
    }
    return true;
  }

  // ------------------------------------------------------------------
  // Scans

  /** The classes of characters the cursor loops skip over. */
  datatype Class =
    | Blank   // isWhitespace(*text) || *text == '\n'
    | Space   // isWhitespace(*text)
    | Word    // !isWhitespace(*text)
    | Digit   // isNumber(*text)
    | Line    // *text != '\n'

  predicate Member(k: Class, c: u8) {
    match k
    case Blank => IsWhitespace(c) || c == LF
    case Space => IsWhitespace(c)
    case Word => !IsWhitespace(c)
    case Digit => IsNumber(c)
    case Line => c != LF
  }

  /** `while (*text && member(*text)) text++;`: the suffix after the longest prefix
      of members. */
  function SkipWhile(t: seq<u8>, k: Class): (r: seq<u8>)
    ensures |r| <= |t|
    ensures |r| > 0 ==> !Member(k, r[0])
    decreases |t|
  {
    if |t| == 0 || !Member(k, t[0]) then t else SkipWhile(t[1..], k)
  }

  /** Everything the scan passes over is a member: the scan stops at the first
      non-member or at the terminator. */
  lemma {:induction false} SkipWhileSkipsMembers(t: seq<u8>, k: Class)
    ensures forall p :: 0 <= p < |t| - |SkipWhile(t, k)| ==> Member(k, t[p])
    decreases |t|
  {
    if |t| > 0 && Member(k, t[0]) {
      SkipWhileSkipsMembers(t[1..], k);
    }
  }

  /** The scan stops at a suffix of its input. */
  lemma {:induction false} SkipWhileSuffix(t: seq<u8>, k: Class)
    ensures SkipWhile(t, k) == t[|t| - |SkipWhile(t, k)|..]
    decreases |t|
  {
    if |t| > 0 && Member(k, t[0]) {
      SkipWhileSuffix(t[1..], k);
    }
  }

  /** The scan loop over the text `s`, from index i. */
  method Skip(s: seq<u8>, i: nat, k: Class) returns (j: nat)
    requires i <= |s|
    ensures i <= j <= |s| && s[j..] == SkipWhile(s[i..], k)
  {
    j := i;
    while j < |s| && Member(k, s[j])
      invariant i <= j <= |s|
      invariant SkipWhile(s[j..], k) == SkipWhile(s[i..], k)
    {
      assert s[j..][1..] == s[j + 1..];
      j := j + 1;
    }
  }

  /** A character that starts a line the comment loop skips. */
  predicate Commented(c: u8) {
    c == HASH_MARK || IsWhitespace(c) || c == LF
  }

  /** The comment loop: while the cursor is on '#', whitespace or a newline, skip to
      the end of the line and one character further. When the line ends at the
      terminator, that step leaves the string: None. That can only happen when the
      text does not end in a newline. */
  function SkipComments(t: seq<u8>): (r: Option<seq<u8>>)
    ensures r.Some? ==> |r.value| <= |t|
    ensures r.Some? && |r.value| > 0 ==> !Commented(r.value[0])
    decreases |t|
  {
    if |t| == 0 || !Commented(t[0]) then Some(t)
    else
      var e := SkipWhile(t, Line);
      if |e| == 0 then None else SkipComments(e[1..])
  }

  /** The cursor can only leave a text that does not end in a newline. */
  lemma {:induction false} OverrunNeedsOpenLine(t: seq<u8>)
    requires SkipComments(t).None?
    ensures |t| > 0 && t[|t| - 1] != LF
    decreases |t|
  {
    var e := SkipWhile(t, Line);
    if |e| == 0 {
      SkipWhileSkipsMembers(t, Line);
      assert Member(Line, t[|t| - 1]);
    } else {
      OverrunNeedsOpenLine(e[1..]);
      SkipWhileSuffix(t, Line);
      assert t[|t| - 1] == e[1..][|e[1..]| - 1];
    }
  }

  method SkipCommentLines(s: seq<u8>, i: nat) returns (j: nat, overrun: bool)
    requires i <= |s|
    ensures overrun <==> SkipComments(s[i..]).None?
    ensures !overrun ==> i <= j <= |s| && s[j..] == SkipComments(s[i..]).value
  {
    j := i;
    while j < |s| && Commented(s[j])
      invariant i <= j <= |s|
      invariant SkipComments(s[j..]) == SkipComments(s[i..])
      decreases |s| - j
    {
      var e := Skip(s, j, Line);
      if e == |s| {
        return e, true;
      }
      assert s[e..][1..] == s[e + 1..];
      j := e + 1;
    }
    return j, false;
  }

  // ------------------------------------------------------------------
  // One entry

  datatype Field = Field(value: int, rest: seq<u8>)

  /** extractNumber: skip whitespace, then take the run of digits and its value. */
  function Number(t: seq<u8>): (r: Field)
    ensures |r.rest| <= |t|
  {
    var a := SkipWhile(t, Space);
    var b := SkipWhile(a, Digit);
    Field(Decimal(a[..|a| - |b|]), b)
  }

  datatype Scanned = Scanned(entry: Entry, rest: seq<u8>)

  /** A name (everything up to whitespace), then four numbers. */
  function ReadEntry(t: seq<u8>): (r: Scanned)
    ensures |r.rest| <= |t|
    ensures |t| > 0 && !IsWhitespace(t[0]) ==> |r.rest| < |t|
  {
    var n := SkipWhile(t, Word);
    var x := Number(n);
    var y := Number(x.rest);
    var w := Number(y.rest);
    var h := Number(w.rest);
    Scanned(Entry(t[..|t| - |n|], Rect(x.value, y.value, w.value, h.value)), h.rest)
  }

  method ReadNumber(s: seq<u8>, i: nat) returns (v: int, j: nat)
    requires i <= |s|
    ensures i <= j <= |s| && Number(s[i..]) == Field(v, s[j..])
  {
    var a := Skip(s, i, Space);
    var b := Skip(s, a, Digit);
    assert s[a..][..b - a] == s[a..b];
    v := StringToDecimal(s[a..], b - a);
    j := b;
  }

  /** The name scan and the four `extractNumber` expansions of `parseSpriteSheet`. */
  method ReadEntryAt(s: seq<u8>, i: nat) returns (e: Entry, j: nat)
    requires i <= |s|
    ensures i <= j <= |s| && ReadEntry(s[i..]) == Scanned(e, s[j..])
  {
    var n := Skip(s, i, Word);
    assert s[i..][..n - i] == s[i..n];
    var x, a := ReadNumber(s, n);
    var y, b := ReadNumber(s, a);
    var w, c := ReadNumber(s, b);
    var h, d := ReadNumber(s, c);
    e := Entry(s[i..n], Rect(x, y, w, h));
    j := d;
  }

  /** The same scans in `countSpriteSheet`, where no value is computed. */
  method SkipEntry(s: seq<u8>, i: nat) returns (j: nat)
    requires i <= |s|
    ensures i <= j <= |s| && s[j..] == ReadEntry(s[i..]).rest
  {
    j := Skip(s, i, Word);
    var round := 0;
    while round < 4
      invariant 0 <= round <= 4 && i <= j <= |s|
      invariant round == 0 ==> s[j..] == SkipWhile(s[i..], Word)
      invariant round == 1 ==> s[j..] == Number(SkipWhile(s[i..], Word)).rest
      invariant round == 2 ==> s[j..] == Number(Number(SkipWhile(s[i..], Word)).rest).rest
      invariant round == 3 ==> s[j..] == Number(Number(Number(SkipWhile(s[i..], Word)).rest).rest).rest
      invariant round == 4 ==> s[j..] == ReadEntry(s[i..]).rest
    {
      j := Skip(s, j, Space);
      j := Skip(s, j, Digit);
      round := round + 1;
    }
  }

  // ------------------------------------------------------------------
  // The whole text

  /** What a parse reports: the returned count, the entries whose fields were
      written into slots 0, 1, ... in order, and whether the cursor left the string. */
  datatype Sheet = Sheet(count: int, entries: seq<Entry>, overrun: bool)

  /** The exact text "a": `text[0] == 'a' && text[1] == '\0'`. */
  predicate IsWholeTexture(text: seq<u8>) {
    CharAt(text, 0) == LETTER_A && CharAt(text, 1) == NUL
  }

  /** The cursor after the leading blank lines and, when present, the version line.
      A missing version line only sets an unused error flag. */
  function AfterHeader(t: seq<u8>): (r: seq<u8>)
    ensures |r| <= |t|
  {
    var h := SkipWhile(t, Blank);
    if Matches(h, VERSION_LINE, 5) then h[5..] else h
  }

  /** The loop of `parseSpriteSheet` from cursor `t` with `count` slots used. Each
      round skips blank space, gives up at `capacity`, takes a slot, skips comment
      lines, and stops at the end of the text before reading an entry into the slot. */
  function ParseFrom(t: seq<u8>, count: nat, capacity: int): (r: Sheet)
    ensures count <= capacity ==> count <= r.count <= capacity && |r.entries| <= r.count - count
    ensures count > capacity ==> r.entries == []
    decreases |t|
  {
    if |t| == 0 then Sheet(count, [], false)
    else
      var b := SkipWhile(t, Blank);
      if count >= capacity then Sheet(capacity, [], false)
      else match SkipComments(b)
        case None => Sheet(count + 1, [], true)
        case Some(c) =>
          if |c| == 0 then Sheet(count + 1, [], false)
          else
            var e := ReadEntry(c);
            var rest := ParseFrom(SkipWhile(e.rest, Blank), count + 1, capacity);
            Sheet(rest.count, [e.entry] + rest.entries, rest.overrun)
  }

  /** The offset `localName` reaches: for every '/' at index i it advances by i + 1,
      counted from where it already is. */
  function SlashOffset(name: seq<u8>): nat {
    if |name| == 0 then 0
    else SlashOffset(name[..|name| - 1]) + (if name[|name| - 1] == SLASH then |name| else 0)
  }

  /** The name the "a" form stores: the texture name from `localName` on, or None
      when `localName` has moved past the terminator. */
  function LocalName(name: seq<u8>): Option<seq<u8>> {
    var k := SlashOffset(name);
    if k <= |name| then Some(name[k..]) else None
  }

  /** parseSpriteSheet. */
  function Parse(text: seq<u8>, texture: Texture, capacity: int): (r: Sheet)
    ensures IsWholeTexture(text) ==> r.count == 1 && |r.entries| <= 1
    ensures !IsWholeTexture(text) && capacity >= 0 ==> 0 <= r.count <= capacity && |r.entries| <= r.count
    ensures capacity < 0 ==> |r.entries| <= 1
  {
    if IsWholeTexture(text) then
      match LocalName(texture.name)
      case None => Sheet(1, [], true)
      case Some(n) => Sheet(1, [Entry(n, Rect(0, 0, texture.width, texture.height))], false)
    else ParseFrom(AfterHeader(text), 0, capacity)
  }

  /** The loop of `countSpriteSheet`: the same scans, but the end of the text is
      tested before the entry is counted. None when the cursor leaves the string. */
  function CountFrom(t: seq<u8>, n: nat): (r: Option<nat>)
    ensures r.Some? ==> r.value >= n
    decreases |t|
  {
    if |t| == 0 then Some(n)
    else match SkipComments(SkipWhile(t, Blank))
      case None => None
      case Some(c) => if |c| == 0 then Some(n) else CountFrom(ReadEntry(c).rest, n + 1)
  }

  /** countSpriteSheet. */
  function Count(text: seq<u8>): Option<nat> {
    if IsWholeTexture(text) then Some(1) else CountFrom(AfterHeader(text), 0)
  }

  // ------------------------------------------------------------------
  // The two parsers as the C code runs them

  /** The 16-byte name field: memset to zero, the first min(len, 16) bytes copied,
      then byte 15 cleared. At most 15 bytes of the name survive. */
  function NameField(raw: seq<u8>): (r: seq<u8>)
    ensures |r| == 16 && r[15] == NUL
  {
    var n := if |raw| < 15 then |raw| else 15;
    raw[..n] + Zeros(16 - n)
  }

  /** The segments after the entries are written into slots 0, 1, ..., leaving the
      hash and every later slot as they were. */
  function Store(segs: seq<Segment>, es: seq<Entry>): (r: seq<Segment>)
    requires |es| <= |segs|
    ensures |r| == |segs|
    ensures forall k :: 0 <= k < |es| ==> r[k] == segs[k].(name := NameField(es[k].name), region := es[k].region)
    ensures forall k :: |es| <= k < |segs| ==> r[k] == segs[k]
  {
    seq(|segs|, k requires 0 <= k < |segs| =>
      if k < |es| then segs[k].(name := NameField(es[k].name), region := es[k].region) else segs[k])
  }

  /** The `localName` loop of the "a" form. */
  method LocalNameOf(name: seq<u8>) returns (local: seq<u8>, overrun: bool)
    ensures overrun <==> LocalName(name).None?
    ensures !overrun ==> local == LocalName(name).value
  {
    var k := 0;
    var i := 0;
    while i < |name|
      invariant 0 <= i <= |name|
      invariant k == SlashOffset(name[..i])
    {
      assert name[..i + 1][..i] == name[..i];
      if name[i] == SLASH {
        k := k + i + 1;
      }
      i := i + 1;
    }
    assert name[..i] == name;
    if k > |name| {
      return [], true;
    }
    local := name[k..];
    overrun := false;
  }

  /** parseSpriteSheet on the string `text`, writing into `segments`. The caller
      must provide a slot for every entry written. */
  method ParseSpriteSheet(text: seq<u8>, texture: Texture, segments: array<Segment>, capacity: int)
    returns (count: int, overrun: bool)
    requires NUL !in text
    requires |Parse(text, texture, capacity).entries| <= segments.Length
    modifies segments
    ensures count == Parse(text, texture, capacity).count
    ensures overrun == Parse(text, texture, capacity).overrun
    ensures segments[..] == Store(old(segments[..]), Parse(text, texture, capacity).entries)
  {
    if CharAt(text, 0) == LETTER_A && CharAt(text, 1) == NUL {
      var local, over := LocalNameOf(texture.name);
      if over {
        return 1, true;
      }
      segments[0] := segments[0].(name := NameField(local), region := Rect(0, 0, texture.width, texture.height));
      return 1, false;
    }
    var i := SkipHeader(text);
    count, overrun := ParseEntries(text, i, segments, capacity);
  }

  /** The leading blank skip and the version-line check shared by both parsers. */
  method SkipHeader(text: seq<u8>) returns (i: nat)
    requires NUL !in text
    ensures i <= |text| && text[i..] == AfterHeader(text)
  {
    i := Skip(text, 0, Blank);
    var versioned := MatchString(text[i..], VERSION_LINE, 5);
    if versioned {
      assert text[i..][5..] == text[i + 5..];
      i := i + 5;
    }
  }

  /** The `while (*text)` loop of parseSpriteSheet, from index `start`. */
  method ParseEntries(text: seq<u8>, start: nat, segments: array<Segment>, capacity: int)
    returns (count: int, overrun: bool)
    requires start <= |text|
    requires |ParseFrom(text[start..], 0, capacity).entries| <= segments.Length
    modifies segments
    ensures count == ParseFrom(text[start..], 0, capacity).count
    ensures overrun == ParseFrom(text[start..], 0, capacity).overrun
    ensures segments[..] == Store(old(segments[..]), ParseFrom(text[start..], 0, capacity).entries)
  {
    ghost var want := ParseFrom(text[start..], 0, capacity);
    ghost var orig := segments[..];
    var i := start;
    count := 0;
    ghost var done: seq<Entry> := [];
    StoreNothing(orig);
    assert [] + want.entries == want.entries;
    while i < |text|
      invariant 0 <= i <= |text| && count == |done|
      invariant want == Then(done, ParseFrom(text[i..], count, capacity))
      invariant segments[..] == Store(orig, done)
      decreases |text| - i
    {
      ghost var t := text[i..];
      i := Skip(text, i, Blank);
      if count >= capacity {
        return capacity, false;
      }
      count := count + 1;
      var c, over := SkipCommentLines(text, i);
      if over {
        return count, true;
      }
      i := c;
      if i == |text| {
        return count, false;
      }
      var e, j := ReadEntryAt(text, i);
      EntryStep(t, count - 1, capacity, done);
      segments[count - 1] := segments[count - 1].(name := NameField(e.name), region := e.region);
      StoreSnoc(orig, done, e);
      done := done + [e];
      i := Skip(text, j, Blank);
    }
    return count, false;
  }

  /** `done` entries written, followed by what the rest of the loop reports. */
  function Then(done: seq<Entry>, r: Sheet): Sheet {
    Sheet(r.count, done + r.entries, r.overrun)
  }

  lemma EntryStep(t: seq<u8>, count: nat, capacity: int, done: seq<Entry>)
    requires |t| > 0 && count < capacity
    requires SkipComments(SkipWhile(t, Blank)).Some?
    requires |SkipComments(SkipWhile(t, Blank)).value| > 0
    ensures var e := ReadEntry(SkipComments(SkipWhile(t, Blank)).value);
      Then(done, ParseFrom(t, count, capacity))
      == Then(done + [e.entry], ParseFrom(SkipWhile(e.rest, Blank), count + 1, capacity))
  {
  }

  lemma StoreNothing(segs: seq<Segment>)
    ensures Store(segs, []) == segs
  {
  }

  lemma StoreSnoc(segs: seq<Segment>, done: seq<Entry>, e: Entry)
    requires |done| < |segs|
    ensures Store(segs, done)[|done| := Store(segs, done)[|done|].(name := NameField(e.name), region := e.region)]
         == Store(segs, done + [e])
  {
    var a := Store(segs, done)[|done| := Store(segs, done)[|done|].(name := NameField(e.name), region := e.region)];
    var b := Store(segs, done + [e]);
    forall k | 0 <= k < |segs| ensures a[k] == b[k] {
      if k < |done| {
        assert (done + [e])[k] == done[k];
      }
    }
  }

  /** countSpriteSheet on the string `text`. */
  method CountSpriteSheet(text: seq<u8>) returns (count: int, overrun: bool)
    requires NUL !in text
    ensures overrun <==> Count(text).None?
    ensures !overrun ==> count == Count(text).value
  {
    if CharAt(text, 0) == LETTER_A && CharAt(text, 1) == NUL {
      return 1, false;
    }
    var i := SkipHeader(text);
    count := 0;
    while i < |text|
      invariant 0 <= i <= |text| && 0 <= count
      invariant Count(text) == CountFrom(text[i..], count)
      decreases |text| - i
    {
      i := Skip(text, i, Blank);
      var c, over := SkipCommentLines(text, i);
      if over {
        return count, true;
      }
      i := c;
      if i == |text| {
        return count, false;
      }
      count := count + 1;
      i := SkipEntry(text, i);
    }
    return count, false;
  }
}
