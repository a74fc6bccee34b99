/** Where the two text paths put their characters, as pure functions of the
    string: greedy word wrap for the built-in font, and the cursor walk of
    the GFX glyph-table font. */
module TextLayout {
  import opened IntOps
  import opened Geometry
  import opened Fonts
  import opened Wrappers

  // ------------------------------------------------------ built-in font

  /** `t.find(' ', k)`: the first space at or after `k`, or `|t|` when there
      is none. */
  function FindSpace(t: string, k: int): (r: int)
    requires 0 <= k <= |t|
    ensures k <= r <= |t|
    ensures r < |t| ==> t[r] == ' '
    ensures forall j | k <= j < r :: t[j] != ' '
    decreases |t| - k
  {
    if k == |t| then |t| else if t[k] == ' ' then k else FindSpace(t, k + 1)
  }

  /** Every character indexes the width table. */
  predicate ValidText(f: BuiltinFont, t: string)
  {
    forall j | 0 <= j < |t| :: ValidChar(f, t[j])
  }

  /** The scaled width of `t[i..e]`, without the `uint16_t` truncation. */
  function Advance(f: BuiltinFont, t: string, i: int, e: int, scale: int): (a: int)
    requires FontWF(f) && ValidText(f, t) && 0 <= i <= e <= |t| && scale >= 0
    ensures a >= 0
    decreases e - i
  {
    if e == i then 0 else Advance(f, t, i, e - 1, scale) + CharWidth(f, t[e - 1]) * scale
  }

  /** `word_width`: the same sum accumulated in a `uint16_t`. */
  function WordWidth(f: BuiltinFont, t: string, i: int, e: int, scale: int): int
    requires FontWF(f) && ValidText(f, t) && 0 <= i <= e <= |t| && scale >= 0
  {
    Advance(f, t, i, e, scale) % 65536
  }

  /** `(uint32_t)wrap`: a negative limit becomes a very large one. */
  function WrapLimit(wrap: int): (r: int)
    requires -0x8000_0000 <= wrap < 0x8000_0000
    ensures 0 <= r < 0x1_0000_0000 && r % 0x1_0000_0000 == wrap % 0x1_0000_0000
  {
    if wrap < 0 then wrap + 0x1_0000_0000 else wrap
  }

  /** The word `t[start..end]` drawn from column offset `co` on the line at
      offset `lo`. */
  datatype WordAt = WordAt(start: int, end: int, co: int, lo: int)

  predicate TextArgs(f: BuiltinFont, t: string, wrap: int, scale: int)
  {
    FontWF(f) && ValidText(f, t) && -0x8000_0000 <= wrap < 0x8000_0000 && 0 <= scale < 256
  }

  /** The column after word `w` and the space that follows it. */
  function After(f: BuiltinFont, t: string, scale: int, w: WordAt): int
    requires FontWF(f) && ValidText(f, t) && scale >= 0 && 0 <= w.start <= w.end <= |t|
  {
    w.co + Advance(f, t, w.start, w.end, scale) + f.widths[0] * scale
  }

  /** Where the word `t[i..e]` goes when the previous one ended at column
      `co` of line `lo`. */
  function Place(f: BuiltinFont, t: string, wrap: int, scale: int, i: int, e: int, co: int, lo: int): (w: WordAt)
    requires TextArgs(f, t, wrap, scale) && 0 <= i <= e <= |t|
    ensures w.start == i && w.end == e && w.lo >= lo
    ensures w.co == co || (w.co == 0 && co + WordWidth(f, t, i, e, scale) > WrapLimit(wrap))
  {
    if co != 0 && co + WordWidth(f, t, i, e, scale) > WrapLimit(wrap) then WordAt(i, e, 0, lo + (f.height + 1) * scale)
    else WordAt(i, e, co, lo)
  }

  /** The words of `t` from index `i` on; each runs from its first character
      up to the next space, and the space itself is skipped. */
  function LayoutFrom(f: BuiltinFont, t: string, wrap: int, scale: int, i: int, co: int, lo: int): (ws: seq<WordAt>)
    requires TextArgs(f, t, wrap, scale) && 0 <= i <= |t| + 1
    ensures forall k | 0 <= k < |ws| :: i <= ws[k].start <= ws[k].end <= |t|
    decreases |t| + 1 - i
  {
    if i >= |t| then []
    else
      var w := Place(f, t, wrap, scale, i, FindSpace(t, i + 1), co, lo);
      [w] + LayoutFrom(f, t, wrap, scale, w.end + 1, After(f, t, scale, w), w.lo)
  }

  /** The words `text(t, p, wrap, scale)` draws, offsets relative to `p`. */
  function Layout(f: BuiltinFont, t: string, wrap: int, scale: int): (ws: seq<WordAt>)
    requires TextArgs(f, t, wrap, scale)
    ensures WordsInText(t, ws)
  {
    LayoutFrom(f, t, wrap, scale, 0, 0, 0)
  }

  /** Placing the next word moves it from the layout still to come to the
      words already drawn. */
  lemma LayoutAdvance(f: BuiltinFont, t: string, wrap: int, scale: int, done: seq<WordAt>,
                      i: int, co0: int, lo0: int, w: WordAt, co: int, lo: int)
    requires TextArgs(f, t, wrap, scale) && 0 <= i < |t|
    requires Layout(f, t, wrap, scale) == done + LayoutFrom(f, t, wrap, scale, i, co0, lo0)
    requires w == Place(f, t, wrap, scale, i, FindSpace(t, i + 1), co0, lo0)
    requires co == After(f, t, scale, w) && lo == w.lo
    ensures Layout(f, t, wrap, scale) == (done + [w]) + LayoutFrom(f, t, wrap, scale, w.end + 1, co, lo)
  {
    var rest := LayoutFrom(f, t, wrap, scale, w.end + 1, co, lo);
    assert LayoutFrom(f, t, wrap, scale, i, co0, lo0) == [w] + rest;
    assert done + ([w] + rest) == (done + [w]) + rest;
  }

  /** `w` is a word of `t`: a non-empty run that ends at a space or at the
      end of the text and holds no space after its first character. */
  predicate IsWord(t: string, w: WordAt)
  {
    0 <= w.start < w.end <= |t| &&
    (w.end < |t| ==> t[w.end] == ' ') &&
    (forall j | w.start < j < w.end :: t[j] != ' ')
  }

  /** A word starts a line or fits within the wrap limit. */
  predicate Fits(f: BuiltinFont, t: string, wrap: int, scale: int, w: WordAt)
    requires TextArgs(f, t, wrap, scale) && IsWord(t, w)
  {
    w.co == 0 || w.co + WordWidth(f, t, w.start, w.end, scale) <= WrapLimit(wrap)
  }

  /** Word `b` comes right after `a` and its space, on a new line at column 0
      exactly when it would cross the wrap limit after `a`. */
  predicate Follows(f: BuiltinFont, t: string, wrap: int, scale: int, a: WordAt, b: WordAt)
    requires TextArgs(f, t, wrap, scale) && IsWord(t, a) && IsWord(t, b)
  {
    var c := After(f, t, scale, a);
    b.start == a.end + 1 &&
    if c != 0 && c + WordWidth(f, t, b.start, b.end, scale) > WrapLimit(wrap) then
      b.co == 0 && b.lo == a.lo + (f.height + 1) * scale
    else
      b.co == c && b.lo == a.lo
  }

  lemma {:induction false} LayoutFromFacts(f: BuiltinFont, t: string, wrap: int, scale: int, i: int, co: int, lo: int,
                                           ws: seq<WordAt>)
    requires TextArgs(f, t, wrap, scale) && 0 <= i <= |t| + 1
    requires ws == LayoutFrom(f, t, wrap, scale, i, co, lo)
    ensures |ws| == 0 <==> i >= |t|
    ensures |ws| > 0 ==> ws[0] == Place(f, t, wrap, scale, i, FindSpace(t, i + 1), co, lo)
    ensures |ws| > 0 ==> ws[|ws| - 1].end + 1 >= |t|
    ensures forall k | 0 <= k < |ws| :: IsWord(t, ws[k]) && Fits(f, t, wrap, scale, ws[k])
    ensures forall k | 0 <= k < |ws| - 1 :: Follows(f, t, wrap, scale, ws[k], ws[k + 1])
    decreases |t| + 1 - i
  {
    if i < |t| {
      var w := Place(f, t, wrap, scale, i, FindSpace(t, i + 1), co, lo);
      var rest := LayoutFrom(f, t, wrap, scale, w.end + 1, After(f, t, scale, w), w.lo);
      assert ws == [w] + rest;
      LayoutFromFacts(f, t, wrap, scale, w.end + 1, After(f, t, scale, w), w.lo, rest);
      assert IsWord(t, w) && Fits(f, t, wrap, scale, w);
      if |rest| == 0 {
        assert w.end + 1 >= |t|;
      } else {
        assert ws[|ws| - 1] == rest[|rest| - 1];
        assert Follows(f, t, wrap, scale, w, rest[0]);
      }
      ConsWords(f, t, wrap, scale, w, rest, ws);
      ConsFollows(f, t, wrap, scale, w, rest, ws);
    }
  }

  lemma ConsWords(f: BuiltinFont, t: string, wrap: int, scale: int, w: WordAt, rest: seq<WordAt>, ws: seq<WordAt>)
    requires TextArgs(f, t, wrap, scale) && IsWord(t, w) && Fits(f, t, wrap, scale, w) && ws == [w] + rest
    requires forall k | 0 <= k < |rest| :: IsWord(t, rest[k]) && Fits(f, t, wrap, scale, rest[k])
    ensures forall k | 0 <= k < |ws| :: IsWord(t, ws[k]) && Fits(f, t, wrap, scale, ws[k])
  {
    forall k | 0 <= k < |ws| ensures IsWord(t, ws[k]) && Fits(f, t, wrap, scale, ws[k]) {
      if k > 0 { assert ws[k] == rest[k - 1]; }
    }
  }

  lemma ConsFollows(f: BuiltinFont, t: string, wrap: int, scale: int, w: WordAt, rest: seq<WordAt>, ws: seq<WordAt>)
    requires TextArgs(f, t, wrap, scale) && IsWord(t, w) && ws == [w] + rest
    requires forall k | 0 <= k < |rest| :: IsWord(t, rest[k])
    requires |rest| > 0 ==> Follows(f, t, wrap, scale, w, rest[0])
    requires forall k | 0 <= k < |rest| - 1 :: Follows(f, t, wrap, scale, rest[k], rest[k + 1])
    ensures forall k | 0 <= k < |ws| :: IsWord(t, ws[k])
    ensures forall k | 0 <= k < |ws| - 1 :: Follows(f, t, wrap, scale, ws[k], ws[k + 1])
  {
    forall k | 0 <= k < |ws| ensures IsWord(t, ws[k]) {
      if k > 0 { assert ws[k] == rest[k - 1]; }
    }
    forall k | 0 <= k < |ws| - 1 ensures Follows(f, t, wrap, scale, ws[k], ws[k + 1]) {
      if k > 0 {
        assert ws[k] == rest[k - 1] && ws[k + 1] == rest[k];
      } else {
        assert ws[1] == rest[0];
      }
    }
  }

  /** The layout splits `t` into words separated by single skipped spaces,
      from the first character to the last (a trailing space is skipped
      too); the first word starts at the
      origin; every word fits or starts a line; and each word follows the
      previous one on the same line unless it would cross the wrap limit. */
  lemma LayoutWellFormed(f: BuiltinFont, t: string, wrap: int, scale: int)
    requires TextArgs(f, t, wrap, scale)
    ensures var ws := Layout(f, t, wrap, scale);
      (|ws| == 0 <==> |t| == 0) &&
      (|ws| > 0 ==> ws[0].start == 0 && ws[0].co == 0 && ws[0].lo == 0 && ws[|ws| - 1].end + 1 >= |t|) &&
      (forall k | 0 <= k < |ws| :: IsWord(t, ws[k]) && Fits(f, t, wrap, scale, ws[k])) &&
      (forall k | 0 <= k < |ws| - 1 :: Follows(f, t, wrap, scale, ws[k], ws[k + 1]))
  {
    LayoutFromFacts(f, t, wrap, scale, 0, 0, 0, Layout(f, t, wrap, scale));
  }

  lemma LayoutStepDown(f: BuiltinFont, t: string, wrap: int, scale: int, k: int)
    requires TextArgs(f, t, wrap, scale)
    requires 0 <= k < |Layout(f, t, wrap, scale)| - 1
    ensures Layout(f, t, wrap, scale)[k].lo <= Layout(f, t, wrap, scale)[k + 1].lo
  {
    var ws := Layout(f, t, wrap, scale);
    var a, b := ws[k], ws[k + 1];
    assert IsWord(t, a) && IsWord(t, b) && Follows(f, t, wrap, scale, a, b) by {
      LayoutWellFormed(f, t, wrap, scale);
    }
    assert b.lo == a.lo || b.lo == a.lo + (f.height + 1) * scale;
    MulMono(0, f.height + 1, scale);
  }

  /** Lines only move down: a later word is never on an earlier line. */
  lemma {:induction false} LayoutLinesNeverRise(f: BuiltinFont, t: string, wrap: int, scale: int, k: int, l: int)
    requires TextArgs(f, t, wrap, scale)
    requires 0 <= k <= l < |Layout(f, t, wrap, scale)|
    ensures Layout(f, t, wrap, scale)[k].lo <= Layout(f, t, wrap, scale)[l].lo
    decreases l - k
  {
    if k < l {
      LayoutLinesNeverRise(f, t, wrap, scale, k, l - 1);
      LayoutStepDown(f, t, wrap, scale, l - 1);
    }
  }

  /** A character drawn at an offset from the text's origin. */
  datatype Placement = Placement(c: char, at: Point)

  /** The characters `t[w.start..j]` of word `w`, each placed after the
      scaled widths of those before it. */
  function WordPlacements(f: BuiltinFont, t: string, scale: int, w: WordAt, j: int): seq<Placement>
    requires FontWF(f) && ValidText(f, t) && scale >= 0 && 0 <= w.start <= j <= w.end <= |t|
    decreases j - w.start
  {
    if j == w.start then []
    else WordPlacements(f, t, scale, w, j - 1) + [Placement(t[j - 1], Point(w.co + Advance(f, t, w.start, j - 1, scale), w.lo))]
  }

  predicate WordsInText(t: string, ws: seq<WordAt>)
  {
    forall k | 0 <= k < |ws| :: 0 <= ws[k].start <= ws[k].end <= |t|
  }

  /** Every character the words draw, in drawing order. */
  function Placements(f: BuiltinFont, t: string, scale: int, ws: seq<WordAt>): seq<Placement>
    requires FontWF(f) && ValidText(f, t) && scale >= 0 && WordsInText(t, ws)
  {
    if ws == [] then []
    else
      var w := ws[|ws| - 1];
      Placements(f, t, scale, ws[..|ws| - 1]) + WordPlacements(f, t, scale, w, w.end)
  }

  lemma PlacementsAppend(f: BuiltinFont, t: string, scale: int, ws: seq<WordAt>, w: WordAt)
    requires FontWF(f) && ValidText(f, t) && scale >= 0 && WordsInText(t, ws) && 0 <= w.start <= w.end <= |t|
    ensures WordsInText(t, ws + [w])
    ensures Placements(f, t, scale, ws + [w]) == Placements(f, t, scale, ws) + WordPlacements(f, t, scale, w, w.end)
  {
    assert (ws + [w])[..|ws|] == ws;
  }

  /** Character `m` of a word is `t[start + m]`, placed `Advance` of the
      characters before it to the right of the word's start. */
  lemma {:induction false} WordPlacementsAt(f: BuiltinFont, t: string, scale: int, w: WordAt, j: int, m: int)
    requires FontWF(f) && ValidText(f, t) && scale >= 0 && 0 <= w.start <= j <= w.end <= |t|
    requires 0 <= m < j - w.start
    ensures |WordPlacements(f, t, scale, w, j)| == j - w.start
    ensures WordPlacements(f, t, scale, w, j)[m] ==
      Placement(t[w.start + m], Point(w.co + Advance(f, t, w.start, w.start + m, scale), w.lo))
    decreases j - w.start
  {
    WordPlacementsLength(f, t, scale, w, j);
    if m < j - 1 - w.start {
      WordPlacementsAt(f, t, scale, w, j - 1, m);
    }
  }

  lemma {:induction false} WordPlacementsLength(f: BuiltinFont, t: string, scale: int, w: WordAt, j: int)
    requires FontWF(f) && ValidText(f, t) && scale >= 0 && 0 <= w.start <= j <= w.end <= |t|
    ensures |WordPlacements(f, t, scale, w, j)| == j - w.start
    decreases j - w.start
  {
    if j > w.start {
      WordPlacementsLength(f, t, scale, w, j - 1);
    }
  }

  lemma {:induction false} PlacementsLength(f: BuiltinFont, t: string, scale: int, ws: seq<WordAt>)
    requires FontWF(f) && ValidText(f, t) && scale >= 0 && WordsInText(t, ws)
    ensures |Placements(f, t, scale, ws)| == CharCount(ws)
  {
    if ws != [] {
      var w := ws[|ws| - 1];
      PlacementsLength(f, t, scale, ws[..|ws| - 1]);
      WordPlacementsLength(f, t, scale, w, w.end);
    }
  }

  /** The total number of characters of the words. */
  function CharCount(ws: seq<WordAt>): int
  {
    if ws == [] then 0 else CharCount(ws[..|ws| - 1]) + (ws[|ws| - 1].end - ws[|ws| - 1].start)
  }

  // ------------------------------------------------------------ GFX font

  /** `(uint8_t)c`: the byte of a character. A character above U+00FF has
      no single byte; it is reduced modulo 256. */
  function Code(c: char): int
  {
    c as int % 256
  }

  /** The end of the C string in `t`: the first NUL, or `|t|`, where
      `std::string` keeps its terminator. */
  function TextEnd(t: string, k: int): (r: int)
    requires 0 <= k <= |t|
    ensures k <= r <= |t|
    ensures r < |t| ==> Code(t[r]) == 0
    ensures forall j | k <= j < r :: Code(t[j]) != 0
    decreases |t| - k
  {
    if k == |t| then |t| else if Code(t[k]) == 0 then k else TextEnd(t, k + 1)
  }

  /** The character codes `customFontWrite` reads before it stops. */
  function Codes(t: string): (s: seq<int>)
    ensures |s| == TextEnd(t, 0)
    ensures forall j | 0 <= j < |s| :: s[j] == Code(t[j]) && s[j] != 0
  {
    var n := TextEnd(t, 0);
    seq(n, j requires 0 <= j < n => Code(t[j]))
  }

  datatype Cursor = Cursor(x: int, y: int)

  /** `customFontDrawChar(c, x, y, scale, scale)`. */
  datatype GlyphDraw = GlyphDraw(c: int, x: int, y: int)

  predicate GfxArgs(f: GfxFont, wrap: int, scale: int)
  {
    GfxFontWF(f) && -0x8000_0000 <= wrap < 0x8000_0000 && 0 <= scale < 256
  }

  /** A glyph that has a bitmap: in range, with non-zero width and height. */
  predicate Drawable(f: GfxFont, c: int)
    requires GfxFontWF(f)
  {
    InRange(f, c) && f.glyphs[GlyphIndex(f, c)].width > 0 && f.glyphs[GlyphIndex(f, c)].height > 0
  }

  /** The cursor a drawn glyph is placed at: the next line's start when
      wrapping is on and its bitmap would reach past `wrap`. */
  function DrawPosition(f: GfxFont, c: int, wrap: int, scale: int, cur: Cursor): Cursor
    requires GfxFontWF(f) && Drawable(f, c)
  {
    var g := f.glyphs[GlyphIndex(f, c)];
    if wrap != 0 && cur.x + scale * (g.xOffset + g.width) > wrap then Cursor(0, cur.y + scale * f.yAdvance)
    else cur
  }

  /** One character of `customFontWrite`: the glyph it draws, if any. */
  function GfxDraw(f: GfxFont, c: int, wrap: int, scale: int, cur: Cursor): Option<GlyphDraw>
    requires GfxFontWF(f)
  {
    if c != 10 && c != 13 && Drawable(f, c) then
      var at := DrawPosition(f, c, wrap, scale, cur);
      Some(GlyphDraw(c, at.x, at.y))
    else None
  }

  /** One character of `customFontWrite`: the cursor after it. */
  function GfxNext(f: GfxFont, c: int, wrap: int, scale: int, cur: Cursor): Cursor
    requires GfxFontWF(f)
  {
    if c == 10 then Cursor(0, cur.y + scale * f.yAdvance)
    else if c == 13 || !InRange(f, c) then cur
    else
      var g := f.glyphs[GlyphIndex(f, c)];
      var at := if Drawable(f, c) then DrawPosition(f, c, wrap, scale, cur) else cur;
      Cursor(at.x + g.xAdvance * scale, at.y)
  }

  /** The cursor after the codes `s`. */
  function GfxCursor(f: GfxFont, s: seq<int>, wrap: int, scale: int, start: Cursor): Cursor
    requires GfxFontWF(f)
  {
    if s == [] then start
    else GfxNext(f, s[|s| - 1], wrap, scale, GfxCursor(f, s[..|s| - 1], wrap, scale, start))
  }

  /** The glyphs drawn for the codes `s`, in order. */
  function GfxDraws(f: GfxFont, s: seq<int>, wrap: int, scale: int, start: Cursor): seq<GlyphDraw>
    requires GfxFontWF(f)
  {
    if s == [] then []
    else
      var init := s[..|s| - 1];
      var d := GfxDraw(f, s[|s| - 1], wrap, scale, GfxCursor(f, init, wrap, scale, start));
      GfxDraws(f, init, wrap, scale, start) + (if d.Some? then [d.value] else [])
  }

  /** A code that neither moves the cursor nor draws: `'\r'`, or any code
      outside `first..last` other than `'\n'`. */
  predicate Inert(f: GfxFont, c: int)
  {
    c == 13 || (c != 10 && !InRange(f, c))
  }

  /** Inserting an inert code anywhere changes neither the cursor nor what
      is drawn. */
  lemma GfxInertInvisible(f: GfxFont, s: seq<int>, c: int, u: seq<int>, wrap: int, scale: int, start: Cursor)
    requires GfxFontWF(f) && Inert(f, c)
    ensures GfxCursor(f, s + [c] + u, wrap, scale, start) == GfxCursor(f, s + u, wrap, scale, start)
    ensures GfxDraws(f, s + [c] + u, wrap, scale, start) == GfxDraws(f, s + u, wrap, scale, start)
  {
    GfxInertCursor(f, s, c, u, wrap, scale, start);
    GfxInertDraws(f, s, c, u, wrap, scale, start);
  }

  lemma {:induction false} GfxInertCursor(f: GfxFont, s: seq<int>, c: int, u: seq<int>, wrap: int, scale: int, start: Cursor)
    requires GfxFontWF(f) && Inert(f, c)
    ensures GfxCursor(f, s + [c] + u, wrap, scale, start) == GfxCursor(f, s + u, wrap, scale, start)
    decreases |u|
  {
    var a, b := s + [c] + u, s + u;
    if u == [] {
      assert a[..|a| - 1] == b && a[|a| - 1] == c;
    } else {
      var u' := u[..|u| - 1];
      GfxInertCursor(f, s, c, u', wrap, scale, start);
      assert a[..|a| - 1] == s + [c] + u' && a[|a| - 1] == u[|u| - 1];
      assert b[..|b| - 1] == s + u' && b[|b| - 1] == u[|u| - 1];
    }
  }

  lemma {:induction false} GfxInertDraws(f: GfxFont, s: seq<int>, c: int, u: seq<int>, wrap: int, scale: int, start: Cursor)
    requires GfxFontWF(f) && Inert(f, c)
    ensures GfxDraws(f, s + [c] + u, wrap, scale, start) == GfxDraws(f, s + u, wrap, scale, start)
    decreases |u|
  {
    var a, b := s + [c] + u, s + u;
    if u == [] {
      assert a[..|a| - 1] == b && a[|a| - 1] == c;
      assert GfxDraw(f, c, wrap, scale, GfxCursor(f, b, wrap, scale, start)).None?;
      assert GfxDraws(f, b, wrap, scale, start) + [] == GfxDraws(f, b, wrap, scale, start);
    } else {
      var u' := u[..|u| - 1];
      var ia, ib := s + [c] + u', s + u';
      GfxInertDraws(f, s, c, u', wrap, scale, start);
      GfxInertCursor(f, s, c, u', wrap, scale, start);
      assert a[..|a| - 1] == ia && a[|a| - 1] == u[|u| - 1];
      assert b[..|b| - 1] == ib && b[|b| - 1] == u[|u| - 1];
      var d := GfxDraw(f, u[|u| - 1], wrap, scale, GfxCursor(f, ia, wrap, scale, start));
      assert GfxDraws(f, a, wrap, scale, start) == GfxDraws(f, ia, wrap, scale, start) + (if d.Some? then [d.value] else []);
      assert GfxDraws(f, b, wrap, scale, start) == GfxDraws(f, ib, wrap, scale, start) + (if d.Some? then [d.value] else []);
    }
  }

  /** Every glyph drawn has a bitmap, and with wrapping on it starts a line
      or its bitmap ends within `wrap`. */
  lemma {:induction false} GfxDrawsFit(f: GfxFont, s: seq<int>, wrap: int, scale: int, start: Cursor)
    requires GfxFontWF(f)
    ensures forall d | d in GfxDraws(f, s, wrap, scale, start) ::
      Drawable(f, d.c) &&
      (wrap == 0 || d.x == 0 ||
       d.x + scale * (f.glyphs[GlyphIndex(f, d.c)].xOffset + f.glyphs[GlyphIndex(f, d.c)].width) <= wrap)
  {
    if s != [] {
      GfxDrawsFit(f, s[..|s| - 1], wrap, scale, start);
    }
  }

  /** The sum of the scaled advances of the codes. */
  function AdvanceSum(f: GfxFont, s: seq<int>, scale: int): int
    requires GfxFontWF(f) && forall j | 0 <= j < |s| :: InRange(f, s[j])
  {
    if s == [] then 0
    else AdvanceSum(f, s[..|s| - 1], scale) + f.glyphs[GlyphIndex(f, s[|s| - 1])].xAdvance * scale
  }

  /** Without wrapping, a run of in-range codes other than line breaks
      moves the cursor right by the sum of their advances, glyphs without
      a bitmap included, and keeps it on its line. */
  lemma {:induction false} GfxRowAdvance(f: GfxFont, s: seq<int>, scale: int, start: Cursor)
    requires GfxFontWF(f)
    requires forall j | 0 <= j < |s| :: InRange(f, s[j]) && s[j] != 10 && s[j] != 13
    ensures GfxCursor(f, s, 0, scale, start) == Cursor(start.x + AdvanceSum(f, s, scale), start.y)
  {
    if s != [] {
      GfxRowAdvance(f, s[..|s| - 1], scale, start);
    }
  }

  /** After a line feed the cursor is at column 0, not back at the text's
      starting column, one line height further down. */
  lemma GfxNewlineColumnZero(f: GfxFont, s: seq<int>, wrap: int, scale: int, start: Cursor)
    requires GfxFontWF(f)
    ensures GfxCursor(f, s + [10], wrap, scale, start) ==
      Cursor(0, GfxCursor(f, s, wrap, scale, start).y + scale * f.yAdvance)
  {
    assert (s + [10])[..|s|] == s;
  }
}
