/**
 `draw_string_formatted`: a single pass over the format text that draws
 ordinary characters as glyphs, moves to the start of the next text row on
 '\n', and on '%' reads the next character as a specifier that draws the
 next argument.  The variadic arguments are a list of tagged values; the
 text ETL's `to_string` produces for `%d`, `%i`, `%x` and `%f` is a
 parameter (`render`), and every argument text passes through the
 100-character staging buffer.
 */
module FormattedText {
  import opened Bits
  import Fonts
  import Ssd1306
  import Decimal
  import PageLayout
  import opened Text

  const NEWLINE: UInt8 := 10
  const PERCENT: UInt8 := 37
  const SPEC_CHAR: UInt8 := 99     // 'c'
  const SPEC_DEC: UInt8 := 100     // 'd'
  const SPEC_FLOAT: UInt8 := 102   // 'f'
  const SPEC_INT: UInt8 := 105     // 'i'
  const SPEC_STR: UInt8 := 115     // 's'
  const SPEC_HEX: UInt8 := 120     // 'x'

  /** Capacity of the staging string an argument is converted into. */
  const MAX_FORMATTED_STRING_SIZE: nat := 100

  /** One variadic argument: an `int`, a `double`, or a NUL-terminated string. */
  datatype Arg = Int(value: int) | Float(number: real) | Str(chars: seq<UInt8>)

  /** The conversion ETL performs for `%d`, `%i`, `%x` and `%f`. */
  type Render = (UInt8, Arg) -> seq<UInt8>

  /** The specifiers that consume an argument. */
  predicate TakesArg(k: UInt8)
  {
    k == SPEC_CHAR || k == SPEC_DEC || k == SPEC_INT || k == SPEC_HEX || k == SPEC_FLOAT || k == SPEC_STR
  }

  /** The argument has the type specifier `k` reads with `va_arg`. */
  predicate Fits(k: UInt8, a: Arg)
  {
    if k == SPEC_FLOAT then a.Float?
    else if k == SPEC_STR then a.Str?
    else a.Int?
  }

  /**
   The call is well formed: no '%' ends the format (the specifier would be
   read past its end), and every specifier that consumes an argument finds
   one of its type.  Spare arguments are never read.
   */
  predicate ArgsMatch(fmt: seq<UInt8>, args: seq<Arg>)
    decreases |fmt|
  {
    if |fmt| == 0 then true
    else if fmt[0] != PERCENT then ArgsMatch(fmt[1..], args)
    else if |fmt| < 2 then false
    else if TakesArg(fmt[1]) then |args| > 0 && Fits(fmt[1], args[0]) && ArgsMatch(fmt[2..], args[1..])
    else ArgsMatch(fmt[2..], args)
  }

  /** Text without '%': every character is drawn as itself. */
  predicate NoSpecifiers(s: seq<UInt8>)
  {
    forall i | 0 <= i < |s| :: s[i] != PERCENT
  }

  /** Text without '\n'. */
  predicate SingleLine(s: seq<UInt8>)
  {
    forall i | 0 <= i < |s| :: s[i] != NEWLINE
  }

  /** A string argument copied up to its terminating NUL. */
  function CString(s: seq<UInt8>): (r: seq<UInt8>)
    ensures |r| <= |s| && r == s[..|r|]
    ensures forall i | 0 <= i < |r| :: r[i] != 0
    ensures |r| < |s| ==> s[|r|] == 0
    decreases |s|
  {
    if |s| == 0 || s[0] == 0 then [] else [s[0]] + CString(s[1..])
  }

  /** The text assigned to the staging string keeps at most its capacity. */
  function Staged(t: seq<UInt8>): (r: seq<UInt8>)
    ensures |r| == if |t| <= MAX_FORMATTED_STRING_SIZE then |t| else MAX_FORMATTED_STRING_SIZE
    ensures r == t[..|r|]
  {
    if |t| <= MAX_FORMATTED_STRING_SIZE then t else t[..MAX_FORMATTED_STRING_SIZE]
  }

  /** The text a string-valued specifier draws for its argument. */
  function FieldText(k: UInt8, a: Arg, render: Render): (r: seq<UInt8>)
    requires Fits(k, a)
    ensures |r| <= MAX_FORMATTED_STRING_SIZE
    ensures k == SPEC_STR ==> r == Staged(CString(a.chars))
    ensures k != SPEC_STR ==> r == Staged(render(k, a))
  {
    if k == SPEC_STR then Staged(CString(a.chars)) else Staged(render(k, a))
  }

  /** The wrap check made before each character: back to `x0` one glyph row down once a glyph would cross the edge. */
  function Wrap(c: Cursor, x0: UInt8, gw: UInt8, gh: UInt8): (r: Cursor)
    ensures c.x + gw <= Ssd1306.SCREEN_WIDTH ==> r == c
    ensures c.x + gw > Ssd1306.SCREEN_WIDTH ==> r.x == x0 && r.y == U8(c.y + gh)
  {
    if c.x + gw > Ssd1306.SCREEN_WIDTH then Cursor(x0, U8(c.y + gh)) else c
  }

  /** The width of `n` glyphs `gw` wide, `gw * n`, summed glyph by glyph. */
  function Span(n: nat, gw: nat): nat
    decreases n
  {
    if n == 0 then 0 else Span(n - 1, gw) + gw
  }

  /** The state after one pass of the loop body: display, cursor, format characters and arguments left. */
  datatype Step = Step(display: Ssd1306.Display, cursor: Cursor, used: nat, rest: seq<Arg>)

  /**
   One pass of the loop body at the head of `fmt`: the wrap check, then
   '\n', an ordinary character, or '%' with the specifier after it.
   */
  function StepAt(d: Ssd1306.Display, fonts: Ssd1306.FontSet, x0: UInt8, c: Cursor,
                  fmt: seq<UInt8>, args: seq<Arg>, render: Render): (s: Step)
    requires Ready(d, fonts) && ArgsMatch(fmt, args) && |fmt| > 0
    ensures 1 <= s.used <= |fmt| && ArgsMatch(fmt[s.used..], s.rest)
    ensures Ready(s.display, fonts) && Ssd1306.SameSettings(d, s.display) && (d.pending ==> s.display.pending)
  {
    var f := CurrentFont(d, fonts);
    var gw, gh := f.glyphWidth, f.glyphHeight;
    var p := Wrap(c, x0, gw, gh);
    var next := Cursor(U8(p.x + gw), p.y);
    if fmt[0] == NEWLINE then Step(d, Cursor(x0, U8(p.y + gh)), 1, args)
    else if fmt[0] != PERCENT then Step(DrawChar(d, fonts, p.x, p.y, fmt[0]), next, 1, args)
    else if fmt[1] == PERCENT then Step(DrawChar(d, fonts, p.x, p.y, PERCENT), next, 2, args)
    else if fmt[1] == SPEC_CHAR then Step(DrawChar(d, fonts, p.x, p.y, U8(args[0].value)), next, 2, args[1..])
    else if TakesArg(fmt[1]) then
      var t := FieldText(fmt[1], args[0], render);
      Step(DrawString(d, fonts, p.x, p.y, t), Cursor(U8(p.x + Span(|t|, gw)), p.y), 2, args[1..])
    else Step(d, p, 2, args)
  }

  /**
   The formatted pass from cursor `c` over `fmt` with arguments `args`,
   rows starting at column `x0`.  Returns the display and the cursor.
   */
  function Interpret(d: Ssd1306.Display, fonts: Ssd1306.FontSet, x0: UInt8, c: Cursor,
                     fmt: seq<UInt8>, args: seq<Arg>, render: Render): (r: (Ssd1306.Display, Cursor))
    requires Ready(d, fonts) && ArgsMatch(fmt, args)
    ensures Ready(r.0, fonts) && Ssd1306.SameSettings(d, r.0)
    ensures d.pending ==> r.0.pending
    decreases |fmt|
  {
    if |fmt| == 0 then (d, c)
    else
      var s := StepAt(d, fonts, x0, c, fmt, args, render);
      Interpret(s.display, fonts, x0, s.cursor, fmt[s.used..], s.rest, render)
  }

  /** `draw_string_formatted(x, y, fmt, args...)`. */
  function DrawStringFormatted(d: Ssd1306.Display, fonts: Ssd1306.FontSet, x: UInt8, y: UInt8,
                               fmt: seq<UInt8>, args: seq<Arg>, render: Render): (r: Ssd1306.Display)
    requires Ready(d, fonts) && ArgsMatch(fmt, args)
    ensures Ready(r, fonts) && Ssd1306.SameSettings(d, r)
    ensures d.pending ==> r.pending
  {
    Interpret(d, fonts, x, Cursor(x, y), fmt, args, render).0
  }

  /* ------------------------------------------------------- reference text */

  /**
   The characters the pass draws, in order, when no row is left: ordinary
   characters as themselves, "%%" as '%', "%c" as its argument truncated to
   a character, the other specifiers as their argument's text, unknown
   specifiers as nothing.
   */
  function Expand(fmt: seq<UInt8>, args: seq<Arg>, render: Render): seq<UInt8>
    requires ArgsMatch(fmt, args)
    decreases |fmt|
  {
    if |fmt| == 0 then []
    else if fmt[0] != PERCENT then [fmt[0]] + Expand(fmt[1..], args, render)
    else
      var k := fmt[1];
      if k == PERCENT then [PERCENT] + Expand(fmt[2..], args, render)
      else if k == SPEC_CHAR then [U8(args[0].value)] + Expand(fmt[2..], args[1..], render)
      else if TakesArg(k) then FieldText(k, args[0], render) + Expand(fmt[2..], args[1..], render)
      else Expand(fmt[2..], args, render)
  }

  /** Glyphs drawn side by side from `c`, one glyph width apart, with no wrap. */
  function RowText(d: Ssd1306.Display, fonts: Ssd1306.FontSet, c: Cursor, s: seq<UInt8>): (r: Ssd1306.Display)
    requires Ready(d, fonts)
    ensures Ready(r, fonts) && Ssd1306.SameSettings(d, r)
    decreases |s|
  {
    if |s| == 0 then d
    else RowText(DrawChar(d, fonts, c.x, c.y, s[0]), fonts, Cursor(U8(c.x + CurrentFont(d, fonts).glyphWidth), c.y), s[1..])
  }

  /* --------------------------------------------------------------- lemmas */

  /** Dropping the first character keeps text free of specifiers and of '\n'. */
  lemma PlainTail(s: seq<UInt8>)
    requires |s| > 0
    ensures NoSpecifiers(s) ==> NoSpecifiers(s[1..])
    ensures SingleLine(s) ==> SingleLine(s[1..])
  {
    forall i | 0 <= i < |s[1..]| ensures s[1..][i] == s[i + 1] {
    }
  }

  /** The width of `n` glyphs is `n` times the glyph width. */
  lemma {:induction false} SpanIsProduct(n: nat, gw: nat)
    ensures Span(n, gw) == n * gw
    decreases n
  {
    if n > 0 {
      SpanIsProduct(n - 1, gw);
    }
  }

  /** Widths of consecutive runs of glyphs add up. */
  lemma {:induction false} SpanAdd(a: nat, b: nat, gw: nat)
    ensures Span(a + b, gw) == Span(a, gw) + Span(b, gw)
    decreases b
  {
    if b > 0 {
      SpanAdd(a, b - 1, gw);
    }
  }

  /** Glyphs of a string that stays on one text row are drawn side by side, whatever its row start. */
  lemma {:induction false} RowTextIsChars(d: Ssd1306.Display, fonts: Ssd1306.FontSet, f: Fonts.Font, x0: UInt8,
                                          c: Cursor, s: seq<UInt8>)
    requires Ready(d, fonts) && f == CurrentFont(d, fonts)
    requires c.x + Span(|s|, f.glyphWidth) <= Ssd1306.SCREEN_WIDTH
    ensures DrawChars(d, fonts, x0, c, s).0 == RowText(d, fonts, c, s)
    decreases |s|
  {
    if |s| > 1 {
      var gw := f.glyphWidth;
      var d1 := DrawChar(d, fonts, c.x, c.y, s[0]);
      assert CurrentFont(d1, fonts) == f;
      assert Span(|s|, gw) == Span(|s| - 1, gw) + gw && Span(|s| - 1, gw) >= gw;
      var n := Cursor(c.x + gw, c.y);
      assert Advance(c, x0, gw, f.glyphHeight) == n;
      RowTextIsChars(d1, fonts, f, x0, n, s[1..]);
    }
  }

  /** Drawing `s + t` side by side is drawing `s`, then `t` from the column after it. */
  lemma {:induction false} RowTextAppend(d: Ssd1306.Display, fonts: Ssd1306.FontSet, f: Fonts.Font, c: Cursor,
                                         s: seq<UInt8>, t: seq<UInt8>)
    requires Ready(d, fonts) && f == CurrentFont(d, fonts)
    requires c.x + Span(|s|, f.glyphWidth) <= Ssd1306.SCREEN_WIDTH
    ensures RowText(d, fonts, c, s + t)
         == RowText(RowText(d, fonts, c, s), fonts, Cursor(U8(c.x + Span(|s|, f.glyphWidth)), c.y), t)
    decreases |s|
  {
    var gw := f.glyphWidth;
    if |s| == 0 {
      assert s + t == t;
      assert Cursor(U8(c.x + Span(0, gw)), c.y) == c;
    } else {
      var d1, n := RowTextHead(d, fonts, f, c, s, t);
      RowTextAppend(d1, fonts, f, n, s[1..], t);
    }
  }

  /** The first glyph of a row: what is left is the rest of the row, one glyph width to the right. */
  lemma RowTextHead(d: Ssd1306.Display, fonts: Ssd1306.FontSet, f: Fonts.Font, c: Cursor, s: seq<UInt8>, t: seq<UInt8>)
    returns (d1: Ssd1306.Display, n: Cursor)
    requires Ready(d, fonts) && f == CurrentFont(d, fonts) && |s| > 0
    requires c.x + Span(|s|, f.glyphWidth) <= Ssd1306.SCREEN_WIDTH
    ensures d1 == DrawChar(d, fonts, c.x, c.y, s[0]) && Ready(d1, fonts) && CurrentFont(d1, fonts) == f
    ensures n == Cursor(c.x + f.glyphWidth, c.y) && n.x + Span(|s| - 1, f.glyphWidth) == c.x + Span(|s|, f.glyphWidth)
    ensures RowText(d, fonts, c, s + t) == RowText(d1, fonts, n, s[1..] + t)
    ensures RowText(d, fonts, c, s) == RowText(d1, fonts, n, s[1..])
  {
    var gw := f.glyphWidth;
    d1 := DrawChar(d, fonts, c.x, c.y, s[0]);
    n := Cursor(c.x + gw, c.y);
    assert Cursor(U8(c.x + gw), c.y) == n;
    assert (s + t)[0] == s[0] && (s + t)[1..] == s[1..] + t;
  }

  /** The characters one step draws. */
  function StepText(fmt: seq<UInt8>, args: seq<Arg>, render: Render): seq<UInt8>
    requires ArgsMatch(fmt, args) && |fmt| > 0
  {
    if fmt[0] == NEWLINE then []
    else if fmt[0] != PERCENT then [fmt[0]]
    else if fmt[1] == PERCENT then [PERCENT]
    else if fmt[1] == SPEC_CHAR then [U8(args[0].value)]
    else if TakesArg(fmt[1]) then FieldText(fmt[1], args[0], render)
    else []
  }

  /**
   A step that is not a line break, taken where the rest of the row holds
   the expansion: it draws its characters side by side without wrapping,
   leaves the cursor just after them, and the expansion goes on with what
   the step left of the format and the arguments.
   */
  lemma StepOnRow(d: Ssd1306.Display, fonts: Ssd1306.FontSet, f: Fonts.Font, x0: UInt8, c: Cursor,
                  fmt: seq<UInt8>, args: seq<Arg>, render: Render)
    returns (s: Step, t: seq<UInt8>)
    requires Ready(d, fonts) && f == CurrentFont(d, fonts) && ArgsMatch(fmt, args) && |fmt| > 0 && fmt[0] != NEWLINE
    requires c.x + f.glyphWidth <= Ssd1306.SCREEN_WIDTH
    requires c.x + Span(|Expand(fmt, args, render)|, f.glyphWidth) <= Ssd1306.SCREEN_WIDTH
    ensures s == StepAt(d, fonts, x0, c, fmt, args, render) && t == StepText(fmt, args, render)
    ensures Expand(fmt, args, render) == t + Expand(fmt[s.used..], s.rest, render)
    ensures s.display == RowText(d, fonts, c, t) && CurrentFont(s.display, fonts) == f
    ensures s.cursor == Cursor(U8(c.x + Span(|t|, f.glyphWidth)), c.y)
  {
    if fmt[0] != PERCENT || fmt[1] == PERCENT || fmt[1] == SPEC_CHAR {
      s, t := GlyphStepOnRow(d, fonts, f, x0, c, fmt, args, render);
    } else if TakesArg(fmt[1]) {
      s, t := FieldStepOnRow(d, fonts, f, x0, c, fmt, args, render);
    } else {
      s, t := StepAt(d, fonts, x0, c, fmt, args, render), StepText(fmt, args, render);
    }
  }

  /** `StepOnRow` for a step that draws one glyph: an ordinary character, "%%" or "%c". */
  lemma GlyphStepOnRow(d: Ssd1306.Display, fonts: Ssd1306.FontSet, f: Fonts.Font, x0: UInt8, c: Cursor,
                  fmt: seq<UInt8>, args: seq<Arg>, render: Render)
    returns (s: Step, t: seq<UInt8>)
    requires Ready(d, fonts) && f == CurrentFont(d, fonts) && ArgsMatch(fmt, args) && |fmt| > 0 && fmt[0] != NEWLINE
    requires c.x + f.glyphWidth <= Ssd1306.SCREEN_WIDTH
    requires c.x + Span(|Expand(fmt, args, render)|, f.glyphWidth) <= Ssd1306.SCREEN_WIDTH
    requires fmt[0] != PERCENT || fmt[1] == PERCENT || fmt[1] == SPEC_CHAR
    ensures s == StepAt(d, fonts, x0, c, fmt, args, render) && t == StepText(fmt, args, render)
    ensures Expand(fmt, args, render) == t + Expand(fmt[s.used..], s.rest, render)
    ensures s.display == RowText(d, fonts, c, t) && CurrentFont(s.display, fonts) == f
    ensures s.cursor == Cursor(U8(c.x + Span(|t|, f.glyphWidth)), c.y)
  {
    s, t := StepAt(d, fonts, x0, c, fmt, args, render), StepText(fmt, args, render);
    assert |t| == 1 && t[1..] == [];
  }

  /** `StepOnRow` for a specifier that draws its argument's text. */
  lemma FieldStepOnRow(d: Ssd1306.Display, fonts: Ssd1306.FontSet, f: Fonts.Font, x0: UInt8, c: Cursor,
                  fmt: seq<UInt8>, args: seq<Arg>, render: Render)
    returns (s: Step, t: seq<UInt8>)
    requires Ready(d, fonts) && f == CurrentFont(d, fonts) && ArgsMatch(fmt, args) && |fmt| > 0 && fmt[0] != NEWLINE
    requires c.x + f.glyphWidth <= Ssd1306.SCREEN_WIDTH
    requires c.x + Span(|Expand(fmt, args, render)|, f.glyphWidth) <= Ssd1306.SCREEN_WIDTH
    requires fmt[0] == PERCENT && fmt[1] != PERCENT && fmt[1] != SPEC_CHAR && TakesArg(fmt[1])
    ensures s == StepAt(d, fonts, x0, c, fmt, args, render) && t == StepText(fmt, args, render)
    ensures Expand(fmt, args, render) == t + Expand(fmt[s.used..], s.rest, render)
    ensures s.display == RowText(d, fonts, c, t) && CurrentFont(s.display, fonts) == f
    ensures s.cursor == Cursor(U8(c.x + Span(|t|, f.glyphWidth)), c.y)
  {
    var gw := f.glyphWidth;
    t := FieldText(fmt[1], args[0], render);
    s := StepAt(d, fonts, x0, c, fmt, args, render);
    assert s == Step(DrawString(d, fonts, c.x, c.y, t), Cursor(U8(c.x + Span(|t|, gw)), c.y), 2, args[1..]) by {
      assert Wrap(c, x0, gw, f.glyphHeight) == c;
    }
    var e := Expand(fmt, args, render);
    assert e == t + Expand(fmt[2..], args[1..], render);
    assert DrawString(d, fonts, c.x, c.y, t) == RowText(d, fonts, c, t) by {
      SpanAdd(|t|, |e| - |t|, gw);
      RowTextIsChars(d, fonts, f, c.x, c, t);
    }
  }

  /** A format whose expansion is empty draws nothing. */
  lemma {:induction false} NothingDrawn(d: Ssd1306.Display, fonts: Ssd1306.FontSet, x0: UInt8, c: Cursor,
                                        fmt: seq<UInt8>, args: seq<Arg>, render: Render)
    requires Ready(d, fonts) && ArgsMatch(fmt, args) && |Expand(fmt, args, render)| == 0
    ensures Interpret(d, fonts, x0, c, fmt, args, render).0 == d
    decreases |fmt|
  {
    if |fmt| > 0 {
      var s := StepAt(d, fonts, x0, c, fmt, args, render);
      assert s.display == d && s.used == 2;
      NothingDrawn(d, fonts, x0, s.cursor, fmt[2..], s.rest, render);
    }
  }

  /** Glyphs `t` then `u` on one row: after `t` the row goes on just right of it, with room for `u`. */
  lemma RowAfterGlyphs(d: Ssd1306.Display, fonts: Ssd1306.FontSet, f: Fonts.Font, c: Cursor, t: seq<UInt8>, u: seq<UInt8>)
    requires Ready(d, fonts) && f == CurrentFont(d, fonts)
    requires c.x + Span(|t + u|, f.glyphWidth) <= Ssd1306.SCREEN_WIDTH
    ensures c.x + Span(|t|, f.glyphWidth) <= Ssd1306.SCREEN_WIDTH
    ensures U8(c.x + Span(|t|, f.glyphWidth)) + Span(|u|, f.glyphWidth) <= Ssd1306.SCREEN_WIDTH
    ensures RowText(d, fonts, c, t + u)
         == RowText(RowText(d, fonts, c, t), fonts, Cursor(U8(c.x + Span(|t|, f.glyphWidth)), c.y), u)
  {
    var a, b := Span(|t|, f.glyphWidth), Span(|u|, f.glyphWidth);
    assert |t + u| == |t| + |u|;
    SpanAdd(|t|, |u|, f.glyphWidth);
    assert c.x + a + b <= Ssd1306.SCREEN_WIDTH;
    assert U8(c.x + a) == c.x + a;
    RowTextAppend(d, fonts, f, c, t, u);
  }

  /**
   On one text row the formatted pass draws its expansion side by side:
   each ordinary character, each "%%" and "%c" one glyph, each other
   specifier its argument's text, unknown specifiers nothing.
   */
  lemma {:induction false} InterpretOneRow(d: Ssd1306.Display, fonts: Ssd1306.FontSet, f: Fonts.Font, x0: UInt8,
                                           c: Cursor, fmt: seq<UInt8>, args: seq<Arg>, render: Render)
    requires Ready(d, fonts) && f == CurrentFont(d, fonts) && ArgsMatch(fmt, args) && SingleLine(fmt)
    requires c.x + Span(|Expand(fmt, args, render)|, f.glyphWidth) <= Ssd1306.SCREEN_WIDTH
    ensures Interpret(d, fonts, x0, c, fmt, args, render).0 == RowText(d, fonts, c, Expand(fmt, args, render))
    decreases |fmt|, 1
  {
    if |Expand(fmt, args, render)| == 0 {
      NothingDrawn(d, fonts, x0, c, fmt, args, render);
    } else {
      OneRowStep(d, fonts, f, x0, c, fmt, args, render);
    }
  }

  /** The inductive step of `InterpretOneRow`, for a format whose expansion is not empty. */
  lemma {:induction false} OneRowStep(d: Ssd1306.Display, fonts: Ssd1306.FontSet, f: Fonts.Font, x0: UInt8,
                                      c: Cursor, fmt: seq<UInt8>, args: seq<Arg>, render: Render)
    requires Ready(d, fonts) && f == CurrentFont(d, fonts) && ArgsMatch(fmt, args) && SingleLine(fmt)
    requires c.x + Span(|Expand(fmt, args, render)|, f.glyphWidth) <= Ssd1306.SCREEN_WIDTH
    requires |Expand(fmt, args, render)| > 0
    ensures Interpret(d, fonts, x0, c, fmt, args, render).0 == RowText(d, fonts, c, Expand(fmt, args, render))
    decreases |fmt|, 0
  {
    var n := |Expand(fmt, args, render)|;
    assert c.x + f.glyphWidth <= Ssd1306.SCREEN_WIDTH by {
      assert Span(n, f.glyphWidth) == Span(n - 1, f.glyphWidth) + f.glyphWidth;
    }
    var s, t := StepOnRow(d, fonts, f, x0, c, fmt, args, render);
    RowAfterGlyphs(d, fonts, f, c, t, Expand(fmt[s.used..], s.rest, render));
    InterpretOneRow(s.display, fonts, f, x0, s.cursor, fmt[s.used..], s.rest, render);
  }

  /**
   A one-line format whose expansion fits on the row from `x` draws
   exactly what `draw_string` draws for the expansion: "int: %d" with
   argument 123 draws what "int: 123" draws.
   */
  lemma FormattedIsExpandedString(d: Ssd1306.Display, fonts: Ssd1306.FontSet, x: UInt8, y: UInt8,
                                  fmt: seq<UInt8>, args: seq<Arg>, render: Render)
    requires Ready(d, fonts) && ArgsMatch(fmt, args) && SingleLine(fmt)
    requires x + |Expand(fmt, args, render)| * CurrentFont(d, fonts).glyphWidth <= Ssd1306.SCREEN_WIDTH
    ensures DrawStringFormatted(d, fonts, x, y, fmt, args, render) == DrawString(d, fonts, x, y, Expand(fmt, args, render))
  {
    var f := CurrentFont(d, fonts);
    SpanIsProduct(|Expand(fmt, args, render)|, f.glyphWidth);
    InterpretOneRow(d, fonts, f, x, Cursor(x, y), fmt, args, render);
    RowTextIsChars(d, fonts, f, x, Cursor(x, y), Expand(fmt, args, render));
  }

  /** Text without '%' matches any argument list and expands to itself. */
  lemma {:induction false} PlainExpandsToItself(s: seq<UInt8>, args: seq<Arg>, render: Render)
    requires NoSpecifiers(s)
    ensures ArgsMatch(s, args) && Expand(s, args, render) == s
    decreases |s|
  {
    if |s| > 0 {
      PlainTail(s);
      PlainExpandsToItself(s[1..], args, render);
      assert [s[0]] + s[1..] == s;
    }
  }

  /**
   Without specifiers or '\n', the formatted pass draws what `draw_string`
   draws from the wrapped start: each character wraps to column `x0` one
   row down at the same point in both.
   */
  lemma {:induction false} InterpretPlain(d: Ssd1306.Display, fonts: Ssd1306.FontSet, f: Fonts.Font, x0: UInt8, c: Cursor,
                                          s: seq<UInt8>, args: seq<Arg>, render: Render)
    requires Ready(d, fonts) && f == CurrentFont(d, fonts)
    requires NoSpecifiers(s) && SingleLine(s) && ArgsMatch(s, args)
    ensures Interpret(d, fonts, x0, c, s, args, render).0
         == DrawChars(d, fonts, x0, Wrap(c, x0, f.glyphWidth, f.glyphHeight), s).0
    decreases |s|
  {
    if |s| > 0 {
      var gw, gh := f.glyphWidth, f.glyphHeight;
      var p := Wrap(c, x0, gw, gh);
      var next := Cursor(U8(p.x + gw), p.y);
      assert s[0] != NEWLINE && s[0] != PERCENT;
      var d1 := DrawChar(d, fonts, p.x, p.y, s[0]);
      assert StepAt(d, fonts, x0, c, s, args, render) == Step(d1, next, 1, args);
      assert Advance(p, x0, gw, gh) == Wrap(next, x0, gw, gh);
      PlainTail(s);
      InterpretPlain(d1, fonts, f, x0, next, s[1..], args, render);
    }
  }

  /**
   A format without specifiers or '\n' draws what `draw_string` draws: from
   `(x, y)` when a glyph fits at `x`, otherwise from `x` one glyph row down.
   */
  lemma PlainFormattedIsString(d: Ssd1306.Display, fonts: Ssd1306.FontSet, x: UInt8, y: UInt8,
                               s: seq<UInt8>, args: seq<Arg>, render: Render)
    requires Ready(d, fonts) && NoSpecifiers(s) && SingleLine(s)
    ensures ArgsMatch(s, args)
    ensures DrawStringFormatted(d, fonts, x, y, s, args, render)
         == if x + CurrentFont(d, fonts).glyphWidth <= Ssd1306.SCREEN_WIDTH then DrawString(d, fonts, x, y, s)
            else DrawString(d, fonts, x, U8(y + CurrentFont(d, fonts).glyphHeight), s)
  {
    PlainExpandsToItself(s, args, render);
    InterpretPlain(d, fonts, CurrentFont(d, fonts), x, Cursor(x, y), s, args, render);
  }

  /**
   A lone specifier that takes an argument, other than "%c", draws its
   argument's text with `draw_string`, from `(x, y)` when a glyph fits at
   `x`, otherwise from `x` one glyph row down.
   */
  lemma FieldAlone(d: Ssd1306.Display, fonts: Ssd1306.FontSet, x: UInt8, y: UInt8, k: UInt8, a: Arg, render: Render)
    requires Ready(d, fonts) && TakesArg(k) && k != SPEC_CHAR && Fits(k, a)
    ensures ArgsMatch([PERCENT, k], [a])
    ensures DrawStringFormatted(d, fonts, x, y, [PERCENT, k], [a], render)
         == if x + CurrentFont(d, fonts).glyphWidth <= Ssd1306.SCREEN_WIDTH then DrawString(d, fonts, x, y, FieldText(k, a, render))
            else DrawString(d, fonts, x, U8(y + CurrentFont(d, fonts).glyphHeight), FieldText(k, a, render))
  {
    var fmt: seq<UInt8> := [PERCENT, k];
    assert fmt[2..] == [];
    assert ArgsMatch(fmt, [a]);
    var f := CurrentFont(d, fonts);
    var p := Wrap(Cursor(x, y), x, f.glyphWidth, f.glyphHeight);
    var s := StepAt(d, fonts, x, Cursor(x, y), fmt, [a], render);
    assert s.used == 2 && s.display == DrawString(d, fonts, p.x, p.y, FieldText(k, a, render));
    assert Interpret(d, fonts, x, Cursor(x, y), fmt, [a], render).0 == s.display;
  }

  /**
   "%d" or "%i" with an argument of 1 to 99999, given a conversion that
   writes its decimal digits, draws what the integer `draw_string` draws.
   */
  lemma IntegerFieldIsNumber(d: Ssd1306.Display, fonts: Ssd1306.FontSet, x: UInt8, y: UInt8, k: UInt8, n: int, render: Render)
    requires Ready(d, fonts) && (k == SPEC_DEC || k == SPEC_INT) && 1 <= n <= 99999
    requires render(k, Int(n)) == Decimal.DecimalText(n)
    requires x + CurrentFont(d, fonts).glyphWidth <= Ssd1306.SCREEN_WIDTH
    ensures ArgsMatch([PERCENT, k], [Int(n)])
    ensures DrawStringFormatted(d, fonts, x, y, [PERCENT, k], [Int(n)], render)
         == DrawString(d, fonts, x, y, Decimal.DecimalText(n))
  {
    Decimal.DecimalLength(n);
    if Decimal.DigitCount(n) > 5 {
      Decimal.Pow10Monotone(5, Decimal.DigitCount(n) - 1);
      assert false;
    }
    FieldAlone(d, fonts, x, y, k, Int(n), render);
  }

  /** Text without '%' consumes no argument: the pass over `s + v` goes on over `v` from where `s` left it. */
  lemma {:induction false} InterpretPlainAppend(d: Ssd1306.Display, fonts: Ssd1306.FontSet, x0: UInt8, c: Cursor,
                                                s: seq<UInt8>, v: seq<UInt8>, args: seq<Arg>, render: Render)
    requires Ready(d, fonts) && NoSpecifiers(s) && ArgsMatch(v, args)
    ensures ArgsMatch(s, args) && ArgsMatch(s + v, args)
    ensures Interpret(d, fonts, x0, c, s + v, args, render)
         == Interpret(Interpret(d, fonts, x0, c, s, args, render).0, fonts, x0,
                      Interpret(d, fonts, x0, c, s, args, render).1, v, args, render)
    decreases |s|
  {
    PlainExpandsToItself(s, args, render);
    if |s| == 0 {
      assert s + v == v;
    } else {
      assert (s + v)[0] == s[0] && (s + v)[1..] == s[1..] + v;
      PlainTail(s);
      var st := StepAt(d, fonts, x0, c, s, args, render);
      assert st.used == 1 && st.rest == args;
      InterpretPlainAppend(st.display, fonts, x0, st.cursor, s[1..], v, args, render);
      assert StepAt(d, fonts, x0, c, s + v, args, render) == st;
    }
  }

  /** Without a wrap, a row of plain text leaves the cursor just right of its last glyph. */
  lemma {:induction false} PlainRowCursor(d: Ssd1306.Display, fonts: Ssd1306.FontSet, f: Fonts.Font, x0: UInt8, c: Cursor,
                                          s: seq<UInt8>, args: seq<Arg>, render: Render)
    requires Ready(d, fonts) && f == CurrentFont(d, fonts)
    requires NoSpecifiers(s) && SingleLine(s) && ArgsMatch(s, args)
    requires c.x + Span(|s|, f.glyphWidth) <= Ssd1306.SCREEN_WIDTH
    ensures Interpret(d, fonts, x0, c, s, args, render).1 == Cursor(c.x + Span(|s|, f.glyphWidth), c.y)
    decreases |s|
  {
    if |s| > 0 {
      var gw := f.glyphWidth;
      assert Span(|s|, gw) == Span(|s| - 1, gw) + gw;
      var st := StepAt(d, fonts, x0, c, s, args, render);
      assert s[0] != NEWLINE && s[0] != PERCENT;
      assert st.used == 1 && st.rest == args && st.cursor == Cursor(c.x + gw, c.y);
      PlainTail(s);
      PlainRowCursor(st.display, fonts, f, x0, st.cursor, s[1..], args, render);
    }
  }

  /** '\n' draws nothing: after the wrap check the cursor goes back to `x0`, one glyph row down. */
  lemma NewlineStep(d: Ssd1306.Display, fonts: Ssd1306.FontSet, x0: UInt8, c: Cursor,
                    t: seq<UInt8>, args: seq<Arg>, render: Render)
    requires Ready(d, fonts) && ArgsMatch(t, args)
    ensures ArgsMatch([NEWLINE] + t, args)
    ensures Interpret(d, fonts, x0, c, [NEWLINE] + t, args, render)
         == Interpret(d, fonts, x0, Cursor(x0, U8(Wrap(c, x0, CurrentFont(d, fonts).glyphWidth, CurrentFont(d, fonts).glyphHeight).y
                                                  + CurrentFont(d, fonts).glyphHeight)), t, args, render)
  {
    assert ([NEWLINE] + t)[1..] == t;
  }

  /** A row of plain text that fits from `x` is drawn as `draw_string` draws it and leaves the cursor just after it. */
  lemma PlainLine(d: Ssd1306.Display, fonts: Ssd1306.FontSet, f: Fonts.Font, x: UInt8, y: UInt8,
                  s: seq<UInt8>, args: seq<Arg>, render: Render)
    requires Ready(d, fonts) && f == CurrentFont(d, fonts)
    requires NoSpecifiers(s) && SingleLine(s) && ArgsMatch(s, args)
    requires x + Span(|s|, f.glyphWidth) <= Ssd1306.SCREEN_WIDTH
    ensures Interpret(d, fonts, x, Cursor(x, y), s, args, render).0 == DrawString(d, fonts, x, y, s)
    ensures Interpret(d, fonts, x, Cursor(x, y), s, args, render).1 == Cursor(x + Span(|s|, f.glyphWidth), y)
  {
    if |s| > 0 {
      SpanAdd(1, |s| - 1, f.glyphWidth);
    }
    InterpretPlain(d, fonts, f, x, Cursor(x, y), s, args, render);
    PlainRowCursor(d, fonts, f, x, Cursor(x, y), s, args, render);
  }

  /** The row a '\n' moves to from the end of a row of `n` glyphs started at `x`. */
  function RowBelow(x: UInt8, y: UInt8, n: nat, gw: UInt8, gh: UInt8): (r: UInt8)
    ensures x + Span(n + 1, gw) <= Ssd1306.SCREEN_WIDTH ==> r == U8(y + gh)
    ensures x + Span(n + 1, gw) > Ssd1306.SCREEN_WIDTH ==> r == U8(U8(y + gh) + gh)
  {
    if x + Span(n + 1, gw) <= Ssd1306.SCREEN_WIDTH then U8(y + gh) else U8(U8(y + gh) + gh)
  }

  /** '\n' at the end of a row of `n` glyphs started at `x` moves the cursor to `x` on `RowBelow`. */
  lemma NewlineAfterRow(d: Ssd1306.Display, fonts: Ssd1306.FontSet, f: Fonts.Font, x: UInt8, y: UInt8, n: nat,
                        t: seq<UInt8>, args: seq<Arg>, render: Render)
    requires Ready(d, fonts) && f == CurrentFont(d, fonts) && ArgsMatch(t, args)
    requires x + Span(n, f.glyphWidth) <= Ssd1306.SCREEN_WIDTH
    ensures ArgsMatch([NEWLINE] + t, args)
    ensures Interpret(d, fonts, x, Cursor(x + Span(n, f.glyphWidth), y), [NEWLINE] + t, args, render)
         == Interpret(d, fonts, x, Cursor(x, RowBelow(x, y, n, f.glyphWidth, f.glyphHeight)), t, args, render)
  {
    var gw, gh := f.glyphWidth, f.glyphHeight;
    NewlineStep(d, fonts, x, Cursor(x + Span(n, gw), y), t, args, render);
  }

  /**
   A row of plain text that fits from `x`, then '\n', then more: the row
   is drawn as `draw_string` draws it and the rest starts at column `x` one
   glyph row down, or two rows down when the row ends exactly where no
   further glyph fits, since the wrap check runs before the '\n'.
   */
  lemma LineThenNewline(d: Ssd1306.Display, fonts: Ssd1306.FontSet, x: UInt8, y: UInt8,
                        s: seq<UInt8>, t: seq<UInt8>, args: seq<Arg>, render: Render)
    requires Ready(d, fonts) && NoSpecifiers(s) && SingleLine(s) && ArgsMatch(t, args)
    requires x + Span(|s|, CurrentFont(d, fonts).glyphWidth) <= Ssd1306.SCREEN_WIDTH
    ensures ArgsMatch(s + [NEWLINE] + t, args)
    ensures DrawStringFormatted(d, fonts, x, y, s + [NEWLINE] + t, args, render)
         == Interpret(DrawString(d, fonts, x, y, s), fonts, x,
                      Cursor(x, RowBelow(x, y, |s|, CurrentFont(d, fonts).glyphWidth, CurrentFont(d, fonts).glyphHeight)),
                      t, args, render).0
  {
    var f := CurrentFont(d, fonts);
    var u := [NEWLINE] + t;
    assert s + [NEWLINE] + t == s + u;
    NewlineAfterRow(DrawString(d, fonts, x, y, s), fonts, f, x, y, |s|, t, args, render);
    PlainLineThen(d, fonts, f, x, y, s, u, args, render);
  }

  /** A row of plain text that fits from `x`, then more: the row is drawn as `draw_string` draws it, and the rest goes on just right of it. */
  lemma PlainLineThen(d: Ssd1306.Display, fonts: Ssd1306.FontSet, f: Fonts.Font, x: UInt8, y: UInt8,
                      s: seq<UInt8>, v: seq<UInt8>, args: seq<Arg>, render: Render)
    requires Ready(d, fonts) && f == CurrentFont(d, fonts)
    requires NoSpecifiers(s) && SingleLine(s) && ArgsMatch(v, args)
    requires x + Span(|s|, f.glyphWidth) <= Ssd1306.SCREEN_WIDTH
    ensures ArgsMatch(s + v, args)
    ensures Interpret(d, fonts, x, Cursor(x, y), s + v, args, render)
         == Interpret(DrawString(d, fonts, x, y, s), fonts, x, Cursor(x + Span(|s|, f.glyphWidth), y), v, args, render)
  {
    InterpretPlainAppend(d, fonts, x, Cursor(x, y), s, v, args, render);
    PlainLine(d, fonts, f, x, y, s, args, render);
  }
}
