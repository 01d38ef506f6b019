/** Properties of the sprite-sheet parsers of not_yet_used/wbTexture.c: what a
    well-formed sheet parses to, how `parseSpriteSheet` and `countSpriteSheet` differ
    at the end of the text, the slots `atlasAdd` reserves, the stored names. */
module SpriteSheetLaws {
  import opened Bytes
  import opened Wrappers
  import opened SpriteSheet

  // ------------------------------------------------------------------
  // Writing a sheet

  /** An entry a sheet can spell: a name that starts a line the comment loop does
      not skip and holds no whitespace and no NUL, and a region of natural numbers. */
  predicate Writable(e: Entry) {
    |e.name| > 0 && !Commented(e.name[0])
    && (forall i :: 0 <= i < |e.name| ==> !IsWhitespace(e.name[i]) && e.name[i] != NUL)
    && e.region.x >= 0 && e.region.y >= 0 && e.region.w >= 0 && e.region.h >= 0
  }

  predicate AllWritable(es: seq<Entry>) {
    |es| == 0 || (Writable(es[0]) && AllWritable(es[1..]))
  }

  /** " <digits>" */
  function Spelled(n: nat): seq<u8> {
    [SPACE] + Digits(n)
  }

  /** The numbers of a line, each after a blank, and the newline. */
  function Numbers(ns: seq<nat>): seq<u8> {
    if |ns| == 0 then [LF] else Spelled(ns[0]) + Numbers(ns[1..])
  }

  /** `name x y w h` and a newline. */
  function EntryLine(e: Entry): seq<u8>
    requires Writable(e)
  {
    e.name + Numbers([e.region.x, e.region.y, e.region.w, e.region.h])
  }

  function Lines(es: seq<Entry>): seq<u8>
    requires AllWritable(es)
  {
    if |es| == 0 then [] else EntryLine(es[0]) + Lines(es[1..])
  }

  /** The version line followed by one line per entry. */
  function Render(es: seq<Entry>): seq<u8>
    requires AllWritable(es)
  {
    VERSION_LINE + [LF] + Lines(es)
  }

  /** A comment line `#...` with its newline. */
  function CommentLine(body: seq<u8>): seq<u8> {
    [HASH_MARK] + body + [LF]
  }

  // ------------------------------------------------------------------
  // Scans over known text

  /** A scan passes over a run of members and stops at the first non-member. */
  lemma {:induction false} SkipOver(p: seq<u8>, q: seq<u8>, k: Class)
    requires forall i :: 0 <= i < |p| ==> Member(k, p[i])
    requires |q| == 0 || !Member(k, q[0])
    ensures SkipWhile(p + q, k) == q
    decreases |p|
  {
    if |p| > 0 {
      assert (p + q)[1..] == p[1..] + q;
      SkipOver(p[1..], q, k);
    }
  }

  lemma SkipWhileTwice(t: seq<u8>, k: Class)
    ensures SkipWhile(SkipWhile(t, k), k) == SkipWhile(t, k)
  {
  }

  /** `extractNumber` over " <digits of n>" stops at the next blank or newline. */
  lemma NumberOfField(n: nat, q: seq<u8>)
    requires |q| > 0 && (q[0] == SPACE || q[0] == LF)
    ensures Number(Spelled(n) + q) == Field(n, q)
  {
    var d := Digits(n);
    assert Spelled(n) + q == [SPACE] + (d + q);
    SkipOver([SPACE], d + q, Space);
    assert forall i :: 0 <= i < |d| ==> Member(Digit, d[i]);
    SkipOver(d, q, Digit);
    assert (d + q)[..|d + q| - |q|] == d;
    DecimalOfDigits(n);
  }

  /** Reading a written line gives back its entry; the cursor stops at the newline. */
  lemma ReadLine(e: Entry, q: seq<u8>)
    requires Writable(e)
    ensures ReadEntry(EntryLine(e) + q) == Scanned(e, [LF] + q)
  {
    var r := e.region;
    var ns: seq<nat> := [r.x, r.y, r.w, r.h];
    var fh := Spelled(r.h) + ([LF] + q);
    var fw := Spelled(r.w) + fh;
    var fy := Spelled(r.y) + fw;
    var fx := Spelled(r.x) + fy;
    assert Numbers(ns[4..]) == [LF];
    assert Numbers(ns[3..]) == Spelled(r.h) + [LF];
    assert Numbers(ns[2..]) == Spelled(r.w) + Numbers(ns[3..]);
    assert Numbers(ns[1..]) == Spelled(r.y) + Numbers(ns[2..]);
    assert Numbers(ns) == Spelled(r.x) + Numbers(ns[1..]);
    assert EntryLine(e) + q == e.name + fx;
    SkipOver(e.name, fx, Word);
    assert (e.name + fx)[..|e.name + fx| - |fx|] == e.name;
    NumberOfField(r.x, fy);
    NumberOfField(r.y, fw);
    NumberOfField(r.w, fh);
    NumberOfField(r.h, [LF] + q);
  }

  /** The blank run after a line ends where the next line starts. */
  lemma AfterLine(es: seq<Entry>, tail: seq<u8>)
    requires AllWritable(es)
    requires |tail| == 0 || !Member(Blank, tail[0])
    ensures |Lines(es) + tail| == 0 || !Member(Blank, (Lines(es) + tail)[0])
    ensures SkipWhile([LF] + (Lines(es) + tail), Blank) == Lines(es) + tail
  {
    if |es| > 0 {
      assert (Lines(es) + tail)[0] == es[0].name[0];
    }
    SkipOver([LF], Lines(es) + tail, Blank);
  }

  // ------------------------------------------------------------------
  // Parsing and counting written lines

  /** A line the comment loop does not skip is where both loops read an entry. */
  lemma EntryStart(t: seq<u8>)
    requires |t| > 0 && !Commented(t[0])
    ensures SkipWhile(t, Blank) == t && SkipComments(t) == Some(t)
  {
  }

  /** One round of the count loop over an entry. */
  lemma CountStep(t: seq<u8>, n: nat)
    requires |t| > 0 && SkipWhile(t, Blank) == t && SkipComments(t) == Some(t)
    ensures CountFrom(t, n) == CountFrom(ReadEntry(t).rest, n + 1)
  {
  }

  lemma LinesCons(es: seq<Entry>, tail: seq<u8>)
    requires AllWritable(es) && |es| > 0
    ensures Lines(es) + tail == EntryLine(es[0]) + (Lines(es[1..]) + tail)
  {
  }

  /** Written lines start where the comment loop stops. */
  lemma LinesStart(es: seq<Entry>, tail: seq<u8>)
    requires AllWritable(es) && |es| > 0
    ensures |Lines(es) + tail| > 0 && !Commented((Lines(es) + tail)[0])
  {
    assert (Lines(es) + tail)[0] == es[0].name[0];
  }

  /** The entry read from the first written line, and the newline left after it. */
  lemma ReadFirst(es: seq<Entry>, tail: seq<u8>)
    requires AllWritable(es) && |es| > 0
    ensures ReadEntry(Lines(es) + tail) == Scanned(es[0], [LF] + (Lines(es[1..]) + tail))
  {
    LinesCons(es, tail);
    ReadLine(es[0], Lines(es[1..]) + tail);
  }

  /** The blank skip after the first line ends at the second. */
  lemma LinesNext(es: seq<Entry>, tail: seq<u8>)
    requires AllWritable(es) && |es| > 0
    requires |tail| == 0 || !Member(Blank, tail[0])
    ensures SkipWhile([LF] + (Lines(es[1..]) + tail), Blank) == Lines(es[1..]) + tail
    ensures |Lines(es[1..]) + tail| == 0 || !Member(Blank, (Lines(es[1..]) + tail)[0])
  {
    AfterLine(es[1..], tail);
  }

  /** The cursor moves from `t` over a line holding `e` to the start of `more`. */
  predicate Step(t: seq<u8>, e: Entry, more: seq<u8>) {
    |t| > 0 && !Commented(t[0])
    && ReadEntry(t) == Scanned(e, [LF] + more)
    && SkipWhile([LF] + more, Blank) == more
  }

  /** The first written line is one step of the cursor. */
  lemma LinesStep(es: seq<Entry>, tail: seq<u8>)
    requires AllWritable(es) && |es| > 0
    requires |tail| == 0 || !Member(Blank, tail[0])
    ensures Step(Lines(es) + tail, es[0], Lines(es[1..]) + tail)
  {
    LinesStart(es, tail);
    ReadFirst(es, tail);
    LinesNext(es, tail);
  }

  /** The cursor positions over written lines: the start of each line, then `tail`. */
  function Texts(es: seq<Entry>, tail: seq<u8>): (ts: seq<seq<u8>>)
    requires AllWritable(es)
    ensures |ts| == |es| + 1 && ts[0] == Lines(es) + tail && ts[|es|] == tail
  {
    if |es| == 0 then [tail] else [Lines(es) + tail] + Texts(es[1..], tail)
  }

  /** Line i takes the cursor from position i to position i + 1. */
  lemma {:induction false} TextsStep(es: seq<Entry>, tail: seq<u8>, i: nat)
    requires AllWritable(es) && i < |es|
    requires |tail| == 0 || !Member(Blank, tail[0])
    ensures Step(Texts(es, tail)[i], es[i], Texts(es, tail)[i + 1])
    decreases i
  {
    if i == 0 {
      assert Texts(es, tail)[1] == Texts(es[1..], tail)[0];
      LinesStep(es, tail);
    } else {
      TextsStep(es[1..], tail, i - 1);
      assert Texts(es, tail)[i] == Texts(es[1..], tail)[i - 1];
      assert Texts(es, tail)[i + 1] == Texts(es[1..], tail)[i];
    }
  }

  /** What one round of the parse loop does to the report: the entry goes first. */
  predicate Prepends(r: Sheet, e: Entry, later: Sheet) {
    r.count == later.count && r.overrun == later.overrun && r.entries == [e] + later.entries
  }

  /** One round of the parse loop over a line holding entry `e`. */
  lemma ParseOverLine(t: seq<u8>, e: Entry, more: seq<u8>, k: nat, capacity: int)
    requires Step(t, e, more) && k < capacity
    ensures Prepends(ParseFrom(t, k, capacity), e, ParseFrom(more, k + 1, capacity))
  {
    EntryStart(t);
  }

  /** Rounds that each prepend an entry prepend them all, in order. */
  lemma {:induction false} PrependAll(rs: seq<Sheet>, es: seq<Entry>, i: nat)
    requires |rs| == |es| + 1 && i <= |es|
    requires forall j :: i <= j < |es| ==> Prepends(rs[j], es[j], rs[j + 1])
    ensures Then(es[i..], rs[|es|]) == rs[i]
    decreases |es| - i
  {
    if i == |es| {
      assert es[i..] == [];
      assert [] + rs[i].entries == rs[i].entries;
    } else {
      PrependAll(rs, es, i + 1);
      assert es[i..] + rs[|es|].entries == [es[i]] + (es[i + 1..] + rs[|es|].entries);
    }
  }

  /** The count loop does not see the blank run it is started on. */
  lemma CountFromBlank(u: seq<u8>, n: nat)
    ensures CountFrom(SkipWhile(u, Blank), n) == CountFrom(u, n)
  {
    SkipWhileTwice(u, Blank);
  }

  /** One round of the count loop over a line; it does not see the blank run. */
  lemma CountOverLine(t: seq<u8>, e: Entry, more: seq<u8>, n: nat)
    requires Step(t, e, more)
    ensures CountFrom(t, n) == CountFrom(more, n + 1)
  {
    EntryStart(t);
    CountStep(t, n);
    CountFromBlank([LF] + more, n + 1);
  }

  /** The parse loop over written lines fills one slot per line, in order. */
  lemma ParseLines(es: seq<Entry>, tail: seq<u8>, capacity: int)
    requires AllWritable(es)
    requires |tail| == 0 || !Member(Blank, tail[0])
    requires |es| <= capacity
    ensures ParseFrom(Lines(es) + tail, 0, capacity) == Then(es, ParseFrom(tail, |es|, capacity))
  {
    var ts := Texts(es, tail);
    var rs := seq(|es| + 1, j requires 0 <= j <= |es| => ParseFrom(ts[j], j, capacity));
    forall j | 0 <= j < |es|
      ensures Prepends(rs[j], es[j], rs[j + 1])
    {
      TextsStep(es, tail, j);
      ParseOverLine(ts[j], es[j], ts[j + 1], j, capacity);
    }
    PrependAll(rs, es, 0);
    assert es[0..] == es;
  }

  /** Round j of the count loop over written lines. */
  lemma CountRound(es: seq<Entry>, tail: seq<u8>, j: nat)
    requires AllWritable(es) && j < |es|
    requires |tail| == 0 || !Member(Blank, tail[0])
    ensures CountFrom(Texts(es, tail)[j], j) == CountFrom(Texts(es, tail)[j + 1], j + 1)
  {
    TextsStep(es, tail, j);
    CountOverLine(Texts(es, tail)[j], es[j], Texts(es, tail)[j + 1], j);
  }

  /** The count loop from line i on counts the remaining lines. */
  lemma {:induction false} CountFromLine(es: seq<Entry>, tail: seq<u8>, i: nat)
    requires AllWritable(es) && i <= |es|
    requires |tail| == 0 || !Member(Blank, tail[0])
    ensures CountFrom(Texts(es, tail)[i], i) == CountFrom(tail, |es|)
    decreases |es| - i
  {
    if i < |es| {
      CountRound(es, tail, i);
      CountFromLine(es, tail, i + 1);
    }
  }

  /** The count loop over written lines counts every line. */
  lemma CountLines(es: seq<Entry>, tail: seq<u8>)
    requires AllWritable(es)
    requires |tail| == 0 || !Member(Blank, tail[0])
    ensures CountFrom(Lines(es) + tail, 0) == CountFrom(tail, |es|)
  {
    CountFromLine(es, tail, 0);
  }

  /** A comment line at the end: the parse loop takes one more slot, the count loop
      does not count it. */
  lemma EndComment(body: seq<u8>, k: nat, capacity: int)
    requires LF !in body && k < capacity
    ensures ParseFrom(CommentLine(body), k, capacity) == Sheet(k + 1, [], false)
    ensures CountFrom(CommentLine(body), k) == Some(k)
  {
    var t := CommentLine(body);
    assert forall i :: 0 <= i < |[HASH_MARK] + body| ==> Member(Class.Line, ([HASH_MARK] + body)[i]);
    SkipOver([HASH_MARK] + body, [LF], Class.Line);
    assert SkipWhile(t, Class.Line) == [LF];
    assert SkipComments(t) == SkipComments([]) == Some([]);
    assert SkipWhile(t, Blank) == t;
  }

  /** Behind the version line, the text is read as its lines. */
  lemma {:induction false} AfterVersion(es: seq<Entry>, tail: seq<u8>)
    requires AllWritable(es) && |es| > 0
    ensures AfterHeader(Render(es) + tail) == [LF] + (Lines(es) + tail)
    ensures !IsWholeTexture(Render(es) + tail)
    ensures SkipWhile(AfterHeader(Render(es) + tail), Blank) == Lines(es) + tail
  {
    var s := Render(es) + tail;
    assert s == VERSION_LINE + ([LF] + (Lines(es) + tail));
    assert s[..5] == VERSION_LINE;
    SkipOver([], s, Blank);
    assert s[5..] == [LF] + (Lines(es) + tail);
    assert (Lines(es) + tail)[0] == es[0].name[0];
    SkipOver([LF], Lines(es) + tail, Blank);
  }

  /** A parse started on a blank run reads as if started past it. */
  lemma ParseFromBlank(u: seq<u8>, k: nat, capacity: int)
    requires |SkipWhile(u, Blank)| > 0
    ensures ParseFrom(u, k, capacity) == ParseFrom(SkipWhile(u, Blank), k, capacity)
  {
    SkipWhileTwice(u, Blank);
  }

  /** A written sheet followed by more text: both parsers read every line, then go on
      with the rest. */
  lemma ReadRendered(es: seq<Entry>, tail: seq<u8>, texture: Texture, capacity: int)
    requires AllWritable(es) && |es| > 0 && |es| <= capacity
    requires |tail| == 0 || !Member(Blank, tail[0])
    ensures Parse(Render(es) + tail, texture, capacity) == Then(es, ParseFrom(tail, |es|, capacity))
    ensures Count(Render(es) + tail) == CountFrom(tail, |es|)
  {
    var body := [LF] + (Lines(es) + tail);
    AfterVersion(es, tail);
    ParseFromBlank(body, 0, capacity);
    CountFromBlank(body, 0);
    ParseLines(es, tail, capacity);
    CountLines(es, tail);
  }

  /** A written sheet parses back to its entries, and both parsers agree on their
      number, when there are slots for all of them. */
  lemma RenderRoundTrip(es: seq<Entry>, texture: Texture, capacity: int)
    requires AllWritable(es) && |es| > 0 && |es| <= capacity
    ensures Parse(Render(es), texture, capacity) == Sheet(|es|, es, false)
    ensures Count(Render(es)) == Some(|es|)
  {
    var tail: seq<u8> := [];
    assert Render(es) + tail == Render(es);
    ReadRendered(es, tail, texture, capacity);
    assert es + [] == es;
  }

  /** A sheet that ends in a comment line: `parseSpriteSheet` reports one slot more
      than it filled, and one more than `countSpriteSheet` counts. */
  lemma TrailingComment(es: seq<Entry>, body: seq<u8>, texture: Texture, capacity: int)
    requires AllWritable(es) && |es| > 0 && |es| < capacity && LF !in body
    ensures Parse(Render(es) + CommentLine(body), texture, capacity) == Sheet(|es| + 1, es, false)
    ensures Count(Render(es) + CommentLine(body)) == Some(|es|)
  {
    ReadRendered(es, CommentLine(body), texture, capacity);
    EndComment(body, |es|, capacity);
    assert es + [] == es;
  }

  /** The version line alone: one slot taken, none filled, none counted. */
  lemma HeaderOnly(texture: Texture, capacity: int)
    requires capacity >= 1
    ensures Parse(Render([]), texture, capacity) == Sheet(1, [], false)
    ensures Count(Render([])) == Some(0)
  {
    var s := Render([]);
    assert s == VERSION_LINE + [LF];
    assert s[..5] == VERSION_LINE;
    SkipOver([], s, Blank);
    assert s[5..] == [LF];
    SkipOver([LF], [], Blank);
  }

  // ------------------------------------------------------------------
  // Parse against count on any text

  /** From any cursor the count loop finishes on, and with a slot to spare, the parse
      loop fills one slot per counted entry and reports that number or one more. */
  lemma {:induction false} ParseAgainstCount(t: seq<u8>, k: nat, n: nat, capacity: int)
    requires CountFrom(t, n).Some?
    requires k + (CountFrom(t, n).value - n) < capacity
    ensures var r := ParseFrom(t, k, capacity); var m := CountFrom(t, n).value - n;
      !r.overrun && |r.entries| == m && (r.count == k + m || r.count == k + m + 1)
    decreases |t|
  {
    if |t| > 0 {
      var b := SkipWhile(t, Blank);
      var c := SkipComments(b).value;
      if |c| > 0 {
        var e := ReadEntry(c);
        CountFromBlank(e.rest, n + 1);
        ParseAgainstCount(SkipWhile(e.rest, Blank), k + 1, n + 1, capacity);
      }
    }
  }

  /** With more slots than characters, the parse loop leaves the string exactly when
      the count loop does. */
  lemma {:induction false} OverrunAgainstCount(t: seq<u8>, k: nat, n: nat, capacity: int)
    requires k + |t| < capacity
    ensures ParseFrom(t, k, capacity).overrun <==> CountFrom(t, n).None?
    decreases |t|
  {
    if |t| > 0 {
      var b := SkipWhile(t, Blank);
      match SkipComments(b)
      case None =>
      case Some(c) =>
        if |c| > 0 {
          var e := ReadEntry(c);
          CountFromBlank(e.rest, n + 1);
          OverrunAgainstCount(SkipWhile(e.rest, Blank), k + 1, n + 1, capacity);
        }
    }
  }

  /** `atlasAdd` reserves `countSpriteSheet + 1` slots and passes a capacity one
      larger: the parse then fills at most the counted slots and reports at most the
      reserved number. */
  lemma AtlasAddSlots(text: seq<u8>, texture: Texture)
    requires Count(text).Some?
    ensures var m := Count(text).value; var r := Parse(text, texture, m + 2);
      r.count <= m + 1 && |r.entries| <= m
  {
    if !IsWholeTexture(text) {
      ParseAgainstCount(AfterHeader(text), 0, 0, Count(text).value + 2);
    }
  }

  // ------------------------------------------------------------------
  // The "a" form and the stored name

  /** A name without '/' adds nothing to the offset. */
  lemma {:induction false} SlashOffsetWithout(p: seq<u8>, q: seq<u8>)
    requires SLASH !in q
    ensures SlashOffset(p + q) == SlashOffset(p)
    decreases |q|
  {
    if |q| > 0 {
      var s := p + q;
      assert s[..|s| - 1] == p + q[..|q| - 1];
      assert s[|s| - 1] == q[|q| - 1] && q[|q| - 1] in q;
      assert forall c :: c in q[..|q| - 1] ==> c in q;
      SlashOffsetWithout(p, q[..|q| - 1]);
    } else {
      assert p + q == p;
    }
  }

  /** A texture name without '/' is stored whole. */
  lemma LocalNameNoSlash(name: seq<u8>)
    requires SLASH !in name
    ensures LocalName(name) == Some(name)
  {
    SlashOffsetWithout([], name);
    assert [] + name == name;
  }

  /** With one '/', the name after it. */
  lemma LocalNameOneSlash(dir: seq<u8>, file: seq<u8>)
    requires SLASH !in dir && SLASH !in file
    ensures LocalName(dir + [SLASH] + file) == Some(file)
  {
    var d := dir + [SLASH];
    SlashOffsetWithout(d, file);
    assert d[..|d| - 1] == dir;
    LocalNameNoSlash(dir);
    assert (d + file)[|d|..] == file;
  }

  /** With two '/', the offsets add up: the second advance counts from the start of
      the name again, so the first |a| + 1 bytes after the last '/' are lost, and the
      cursor leaves the string when the last part is shorter than that. */
  lemma LocalNameTwoSlashes(a: seq<u8>, b: seq<u8>, c: seq<u8>)
    requires SLASH !in a && SLASH !in b && SLASH !in c
    ensures var name := a + [SLASH] + b + [SLASH] + c;
      LocalName(name) == if |a| + 1 <= |c| then Some(c[|a| + 1..]) else None
  {
    var first := a + [SLASH];
    var second := first + b + [SLASH];
    var name := second + c;
    SlashOffsetWithout(second, c);
    assert second[..|second| - 1] == first + b;
    SlashOffsetWithout(first, b);
    assert first[..|first| - 1] == a;
    LocalNameNoSlash(a);
    assert SlashOffset(name) == (|a| + 1) + |second|;
    if |a| + 1 <= |c| {
      assert name[(|a| + 1) + |second|..] == c[|a| + 1..];
    }
  }

  /** The whole-texture form names its segment after the texture, or the part after
      its one '/'. */
  lemma WholeTexture(text: seq<u8>, texture: Texture, capacity: int, dir: seq<u8>, file: seq<u8>)
    requires IsWholeTexture(text)
    requires texture.name == dir + [SLASH] + file || (dir == [] && texture.name == file)
    requires SLASH !in dir && SLASH !in file
    ensures Parse(text, texture, capacity)
         == Sheet(1, [Entry(file, Rect(0, 0, texture.width, texture.height))], false)
  {
    if texture.name == dir + [SLASH] + file {
      LocalNameOneSlash(dir, file);
    } else {
      LocalNameNoSlash(file);
    }
  }

  /** The 16-byte field holds, as a C string, the first 15 bytes of the name. */
  lemma NameFieldString(raw: seq<u8>)
    requires NUL !in raw
    ensures NUL in NameField(raw)
    ensures CString(NameField(raw)) == raw[..if |raw| < 15 then |raw| else 15]
  {
    var n := if |raw| < 15 then |raw| else 15;
    var z := Zeros(16 - n);
    assert NameField(raw) == raw[..n] + [NUL] + z[1..];
    StrLenOfTerminated(raw[..n], z[1..]);
    assert (raw[..n] + [NUL] + z[1..])[..n] == raw[..n];
  }
}
