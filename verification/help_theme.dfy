/** The arithmetic of the tool-help page (apps/help/toolhelp.js): where each entry's icon sits on
    the sprite sheet, the layout clamps of `getThemeData`, and the order in which the style sources
    are consulted (`getDef`). */
module HelpTheme {
  import opened Wrappers
  import opened Text
  import opened Dict
  import opened Values

  /** A JavaScript number as far as this page needs one: `NaN` or an integer. */
  datatype Number = NaN | Int(i: int)

  /** A number `!n` rejects is `0` or `NaN`. */
  predicate NumberTruthy(n: Number) {
    n.Int? && n.i != 0
  }

  // ---------------------------------------------------------------------------------------------
  // Numeric conversions

  /** `Number(s)` on text that is empty or integer text once trimmed; other text is `NaN` here. */
  function StringToNumber(s: string): Number {
    var t := Trim(s);
    if t == "" then Int(0)
    else if IsIntegerText(t) then Int(IntegerValue(t))
    else NaN
  }

  /** `x * 1` on a property that may be absent: an array converts through its `join(',')` text. */
  function ToNumber(o: Option<Value>): Number {
    match o
    case None => NaN
    case Some(Null) => Int(0)
    case Some(Bool(b)) => Int(if b then 1 else 0)
    case Some(Num(x)) => Int(x)
    case Some(Str(s)) => StringToNumber(s)
    case Some(Arr(items)) => StringToNumber(JoinElements(items))
    case Some(Obj(_)) => NaN
  }

  lemma TrimIntegerText(i: int)
    ensures Trim(IntToDec(i)) == IntToDec(i)
  {
    var s := IntToDec(i);
    IntegerTextIsPlain(i);
    assert WsRun(s, 0) == 0 by {
      assert !IsSpace(s[0]);
    }
    assert s[0..] == s;
    assert !IsSpace(s[|s| - 1]);
  }

  /** An icon written as the text of an integer counts as that integer. */
  lemma IconTextNumber(i: int)
    ensures ToNumber(Some(Str(IntToDec(i)))) == Int(i)
  {
    TrimIntegerText(i);
    IntegerTextRoundTrip(i);
  }

  /** The value of a digit in bases up to 36 (`0`-`9`, then `a`/`A` for 10 on); 36 for any other character. */
  function RadixDigit(c: char): (d: nat)
    ensures d <= 36
    ensures IsDigit(c) <==> d < 10
    ensures IsDigit(c) ==> d == DigitVal(c)
  {
    if IsDigit(c) then DigitVal(c)
    else if 'a' <= c <= 'z' then (c as int - 'a' as int + 10) as nat
    else if 'A' <= c <= 'Z' then (c as int - 'A' as int + 10) as nat
    else 36
  }

  /** Length of the run of digits of the base at the start of `s`. */
  function DigitRun(s: string, radix: nat): (k: nat)
    ensures k <= |s|
    ensures forall j | 0 <= j < k :: RadixDigit(s[j]) < radix
    ensures k == |s| || RadixDigit(s[k]) >= radix
  {
    if |s| == 0 || RadixDigit(s[0]) >= radix then 0 else 1 + DigitRun(s[1..], radix)
  }

  /** The value of a run of digits of the base, most significant first. */
  function RadixValue(s: string, radix: nat): nat
    requires radix == 10 || radix == 16
    requires forall j | 0 <= j < |s| :: RadixDigit(s[j]) < radix
  {
    if |s| == 0 then 0
    else
      var high := RadixValue(s[..|s| - 1], radix);
      (if radix == 16 then 16 * high else 10 * high) + RadixDigit(s[|s| - 1])
  }

  /** `parseInt(x)` without a radix, on `String(x)`: leading white space is skipped. */
  function ParseInt(o: Option<Value>): Number {
    ParseSigned(TrimStart(JsString(o)))
  }

  /** An optional sign, then the unsigned part. */
  function ParseSigned(t: string): Number {
    if |t| > 0 && t[0] == '-' then
      match ParseUnsigned(t[1..])
      case NaN => NaN
      case Int(v) => Int(-v)
    else if |t| > 0 && t[0] == '+' then ParseUnsigned(t[1..])
    else ParseUnsigned(t)
  }

  /** A `0x`/`0X` prefix selects base 16, anything else base 10. */
  function ParseUnsigned(t: string): Number {
    if |t| >= 2 && t[0] == '0' && (t[1] == 'x' || t[1] == 'X') then ParseRun(t[2..], 16)
    else ParseRun(t, 10)
  }

  /** The longest run of digits of the base at the front; `NaN` when there is none. */
  function ParseRun(t: string, radix: nat): (n: Number)
    requires radix == 10 || radix == 16
    ensures n.Int? ==> n.i >= 0
  {
    var k := DigitRun(t, radix);
    if k == 0 then NaN else Int(RadixValue(t[..k], radix))
  }

  lemma {:induction false} DecimalRadixValue(s: string)
    requires AllDigits(s)
    ensures forall j | 0 <= j < |s| :: RadixDigit(s[j]) < 10
    ensures RadixValue(s, 10) == DigitsValue(s)
    decreases |s|
  {
    if |s| > 0 {
      DecimalRadixValue(s[..|s| - 1]);
    }
  }

  lemma {:induction false} DigitRunPrefix(d: string, rest: string)
    requires AllDigits(d)
    requires |rest| == 0 || !IsDigit(rest[0])
    ensures DigitRun(d + rest, 10) == |d|
    decreases |d|
  {
    if |d| == 0 {
      assert d + rest == rest;
    } else {
      assert (d + rest)[1..] == d[1..] + rest;
      DigitRunPrefix(d[1..], rest);
    }
  }

  /** A run of decimal digits, followed by text that cannot continue it, read as its value. */
  lemma ParseRunDigits(d: string, rest: string)
    requires AllDigits(d) && |d| > 0
    requires |rest| == 0 || !IsDigit(rest[0])
    ensures ParseRun(d + rest, 10) == Int(DigitsValue(d))
  {
    DigitRunPrefix(d, rest);
    assert (d + rest)[..|d|] == d;
    DecimalRadixValue(d);
  }

  /** Decimal digits are not a `0x` prefix, even `0` followed by text that is not an `x`. */
  lemma {:induction false} ParseUnsignedDigits(d: string, rest: string)
    requires AllDigits(d) && |d| > 0
    requires |rest| == 0 || (!IsDigit(rest[0]) && rest[0] != 'x' && rest[0] != 'X')
    ensures ParseUnsigned(d + rest) == Int(DigitsValue(d))
  {
    var t := d + rest;
    ParseRunDigits(d, rest);
    assert t[0] == d[0];
    if |t| >= 2 {
      assert t[1] == if |d| >= 2 then d[1] else rest[0];
    }
  }

  lemma MinusSign(t: string)
    requires |t| > 0 && t[0] == '-' && ParseUnsigned(t[1..]).Int?
    ensures ParseSigned(t) == Int(-ParseUnsigned(t[1..]).i)
  {
  }

  lemma PlusSign(t: string)
    requires |t| > 0 && t[0] == '+'
    ensures ParseSigned(t) == ParseUnsigned(t[1..])
  {
  }

  lemma NoSign(t: string)
    requires |t| > 0 && t[0] != '-' && t[0] != '+'
    ensures ParseSigned(t) == ParseUnsigned(t)
  {
  }

  /** Integer text (an optional sign and decimal digits), followed by text that cannot continue
      it, read as its value; leading zeros do not switch the base. */
  lemma ParseIntegerText(s: string, rest: string)
    requires IsIntegerText(s)
    requires |rest| == 0 || (!IsDigit(rest[0]) && rest[0] != 'x' && rest[0] != 'X')
    ensures ParseSigned(s + rest) == Int(IntegerValue(s))
  {
    var t := s + rest;
    assert t[0] == s[0];
    if s[0] == '-' || s[0] == '+' {
      assert t[1..] == s[1..] + rest;
      ParseUnsignedDigits(s[1..], rest);
      if s[0] == '-' { MinusSign(t); } else { PlusSign(t); }
    } else {
      ParseUnsignedDigits(s, rest);
      NoSign(t);
    }
  }

  /** `parseInt` reads the integer at the front of a text and ignores what follows it, such as a
      unit: `parseInt('265px')` is 265. */
  lemma ParseIntLeading(s: string, rest: string)
    requires IsIntegerText(s)
    requires |rest| == 0 || (!IsDigit(rest[0]) && rest[0] != 'x' && rest[0] != 'X')
    ensures ParseInt(Some(Str(s + rest))) == Int(IntegerValue(s))
  {
    var t := s + rest;
    assert t[0] == s[0];
    assert !IsSpace(t[0]);
    assert WsRun(t, 0) == 0;
    assert TrimStart(t) == t;
    ParseIntegerText(s, rest);
  }

  /** A configured number is read back as itself. */
  lemma ParseIntNumber(i: int)
    ensures ParseInt(Some(Num(i))) == Int(i)
  {
    var s := IntToDec(i);
    IntegerTextRoundTrip(i);
    assert !IsSpace(s[0]);
    assert WsRun(s, 0) == 0;
    assert TrimStart(s) == s;
    ParseIntegerText(s, "");
    assert s + "" == s;
  }

  // ---------------------------------------------------------------------------------------------
  // The sprite sheet

  /** JavaScript's `x % 10` on integers: the remainder carries the sign of the dividend. */
  function Rem10(a: int): (r: int)
    ensures (a - r) % 10 == 0
    ensures a >= 0 ==> 0 <= r < 10
    ensures a < 0 ==> -10 < r <= 0
  {
    if a >= 0 then a % 10 else -((-a) % 10)
  }

  /** The column `x` and row `y` of an icon on a sheet ten icons wide. */
  datatype Cell = Cell(col: int, row: int)

  /** `x = (icon - 1) % 10`, `y = (icon - x - 1) / 10`. The division is exact, so `y` is an integer. */
  function IconCell(icon: int): (c: Cell)
    ensures icon == 10 * c.row + c.col + 1
    ensures icon >= 1 ==> 0 <= c.col < 10 && c.row >= 0
    ensures icon <= 0 ==> -10 < c.col <= 0 && c.row <= 0
  {
    var x := Rem10(icon - 1);
    var q := (icon - x - 1) / 10;
    assert 10 * q == icon - x - 1;
    Cell(x, q)
  }

  /** Icons are numbered from 1, row by row, ten to a row: every cell of the sheet has exactly
      one icon number, and that number names the cell. */
  lemma IconCellUnique(col: int, row: int)
    requires 0 <= col < 10 && row >= 0
    ensures IconCell(10 * row + col + 1) == Cell(col, row)
  {
    var c := IconCell(10 * row + col + 1);
    assert 10 * (c.row - row) == col - c.col;
  }

  /** The style of one help entry: hidden when the icon number is falsy, otherwise the sheet
      shifted left 50px per column and up 50px per row. */
  function IconCss(icon: Option<Value>): string {
    var n := ToNumber(icon);
    if !NumberTruthy(n) then "display:none"
    else
      var c := IconCell(n.i);
      "background-position:-" + IntToDec(c.col * 50) + "px -" + IntToDec(c.row * 50) + "px"
  }

  /** An entry is hidden exactly when its icon number is `0` or `NaN` (no icon, `null`, `false`,
      non-numeric text). */
  lemma IconHidden(icon: Option<Value>)
    ensures IconCss(icon) == "display:none" <==> !NumberTruthy(ToNumber(icon))
  {
    if NumberTruthy(ToNumber(icon)) {
      assert IconCss(icon)[0] == 'b';
    }
  }

  /** Two entries with positive icon numbers show the same picture only when the numbers are equal. */
  lemma {:induction false} IconCssInjective(a: Option<Value>, b: Option<Value>)
    requires ToNumber(a).Int? && ToNumber(a).i >= 1
    requires ToNumber(b).Int? && ToNumber(b).i >= 1
    requires IconCss(a) == IconCss(b)
    ensures ToNumber(a) == ToNumber(b)
  {
    var ca := IconCell(ToNumber(a).i);
    var cb := IconCell(ToNumber(b).i);
    PositionText(a);
    PositionText(b);
    PositionInjective(ca.col * 50, ca.row * 50, cb.col * 50, cb.row * 50);
  }

  /** The text of a shown icon, with both offsets non-negative. */
  lemma PositionText(icon: Option<Value>)
    requires ToNumber(icon).Int? && ToNumber(icon).i >= 1
    ensures var c := IconCell(ToNumber(icon).i);
            IconCss(icon) == Position(c.col * 50, c.row * 50)
  {
  }

  function Position(x: nat, y: nat): string {
    "background-position:-" + (NatToDec(x) + ("px -" + (NatToDec(y) + "px")))
  }

  lemma PositionInjective(x1: nat, y1: nat, x2: nat, y2: nat)
    requires Position(x1, y1) == Position(x2, y2)
    ensures x1 == x2 && y1 == y2
  {
    var pre := "background-position:-";
    SameTail(pre, NatToDec(x1) + ("px -" + (NatToDec(y1) + "px")), NatToDec(x2) + ("px -" + (NatToDec(y2) + "px")));
    DigitsThenLetter(NatToDec(x1), "px -" + (NatToDec(y1) + "px"), NatToDec(x2), "px -" + (NatToDec(y2) + "px"));
    IndexKeyInjective(x1, x2);
    SameTail("px -", NatToDec(y1) + "px", NatToDec(y2) + "px");
    DigitsThenLetter(NatToDec(y1), "px", NatToDec(y2), "px");
    IndexKeyInjective(y1, y2);
  }

  lemma SameTail(p: string, s: string, t: string)
    requires p + s == p + t
    ensures s == t
  {
    assert s == (p + s)[|p|..];
    assert t == (p + t)[|p|..];
  }

  /** Two digit runs followed by text that starts with a non-digit can only be equal as wholes
      when the runs are equal, and then so are the texts after them. */
  lemma DigitsThenLetter(a: string, s: string, b: string, t: string)
    requires AllDigits(a) && AllDigits(b)
    requires |s| > 0 && !IsDigit(s[0]) && |t| > 0 && !IsDigit(t[0])
    requires a + s == b + t
    ensures a == b && s == t
  {
    assert (a + s)[|a|] == s[0];
    assert (b + t)[|b|] == t[0];
    assert forall j | 0 <= j < |b| :: (b + t)[j] == b[j];
    assert forall j | 0 <= j < |a| :: (a + s)[j] == a[j];
    assert |a| == |b|;
    assert a == (a + s)[..|a|];
    assert b == (b + t)[..|b|];
    SameTail(a, s, t);
  }

  // ---------------------------------------------------------------------------------------------
  // Theme data

  /** `parseInt(x) || d`: `NaN` and `0` fall back to the default. */
  function OrDefault(n: Number, d: int): int {
    if NumberTruthy(n) then n.i else d
  }

  function Min(a: int, b: int): int {
    if a <= b then a else b
  }

  function Max(a: int, b: int): int {
    if a >= b then a else b
  }

  /** The number of columns, their width and the page width. */
  datatype Layout = Layout(colCount: int, colWidth: int, width: int)

  /** The clamps of `getThemeData` over the merged help configuration. A setting within its
      bounds is kept; one outside is moved to the nearer bound; `NaN` and `0` give the default.
      The page is as wide as the columns plus a 30px margin whenever that fits between 800px and
      2500px. */
  function ThemeLayout(config: seq<Field>): (l: Layout)
    ensures 2 <= l.colCount <= 5 && 100 <= l.colWidth <= 500 && 800 <= l.width <= 2500
    ensures var cc := ParseInt(Lookup(config, "colCount"));
            (!NumberTruthy(cc) ==> l.colCount == 3) &&
            (NumberTruthy(cc) && 2 <= cc.i <= 5 ==> l.colCount == cc.i) &&
            (NumberTruthy(cc) && cc.i < 2 ==> l.colCount == 2) &&
            (NumberTruthy(cc) && cc.i > 5 ==> l.colCount == 5)
    ensures var cw := ParseInt(Lookup(config, "colWidth"));
            (!NumberTruthy(cw) ==> l.colWidth == 265) &&
            (NumberTruthy(cw) && 100 <= cw.i <= 500 ==> l.colWidth == cw.i) &&
            (NumberTruthy(cw) && cw.i < 100 ==> l.colWidth == 100) &&
            (NumberTruthy(cw) && cw.i > 500 ==> l.colWidth == 500)
    ensures 800 <= l.colCount * l.colWidth + 30 <= 2500 ==> l.width == l.colCount * l.colWidth + 30
    ensures l.colCount * l.colWidth + 30 < 800 ==> l.width == 800
    ensures l.colCount * l.colWidth + 30 > 2500 ==> l.width == 2500
  {
    var colCount := Min(5, Max(OrDefault(ParseInt(Lookup(config, "colCount")), 3), 2));
    var colWidth := Min(500, Max(100, OrDefault(ParseInt(Lookup(config, "colWidth")), 265)));
    Layout(colCount, colWidth, Min(2500, Max(800, colCount * colWidth + 30)))
  }

  /** With nothing configured the page has three 265px columns and is 825px wide. */
  lemma DefaultLayout()
    ensures ThemeLayout([]) == Layout(3, 265, 825)
  {
    UndefinedIsNaN();
    var none: seq<Field> := [];
    assert Lookup(none, "colCount") == None;
    assert Lookup(none, "colWidth") == None;
  }

  lemma UndefinedIsNaN()
    ensures ParseInt(None) == NaN
  {
    var s := JsString(None);
    assert s == "undefined";
    assert !IsSpace(s[0]);
    assert WsRun(s, 0) == 0;
    assert TrimStart(s) == s;
    assert RadixDigit(s[0]) >= 10;
  }

  /** `_.extend({}, sysStyle, diyStyle)`: the system style's keys in order, then the keys only the
      custom style has. */
  function Extend(sys: seq<Field>, diy: seq<Field>): (r: seq<Field>)
    ensures DistinctKeys(r)
  {
    AssignAll(AssignAll([], sys), diy)
  }

  /** Custom style settings override system ones; the system's remaining settings are kept. */
  lemma ExtendLookup(sys: seq<Field>, diy: seq<Field>, k: string)
    requires DistinctKeys(sys) && DistinctKeys(diy)
    ensures Lookup(Extend(sys, diy), k) == if HasKey(diy, k) then Lookup(diy, k) else Lookup(sys, k)
  {
    if HasKey(diy, k) {
      AssignAllWins(AssignAll([], sys), diy, k);
    } else if HasKey(sys, k) {
      AssignAllWins([], sys, k);
    }
  }

  /** `getThemeData(diyStyle, sysStyle)`: the layout of the merged configuration. */
  function ThemeData(diy: seq<Field>, sys: seq<Field>): Layout {
    ThemeLayout(Extend(sys, diy))
  }

  /** The layout follows the custom style's column settings when it has them. */
  lemma {:induction false} ThemeDataPrefersCustom(diy: seq<Field>, sys: seq<Field>)
    requires DistinctKeys(sys) && DistinctKeys(diy)
    ensures HasKey(diy, "colCount") ==>
      ThemeData(diy, sys).colCount == ThemeLayout(diy).colCount
    ensures !HasKey(diy, "colCount") ==>
      ThemeData(diy, sys).colCount == ThemeLayout(sys).colCount
    ensures HasKey(diy, "colWidth") ==>
      ThemeData(diy, sys).colWidth == ThemeLayout(diy).colWidth
    ensures !HasKey(diy, "colWidth") ==>
      ThemeData(diy, sys).colWidth == ThemeLayout(sys).colWidth
  {
    ExtendLookup(sys, diy, "colCount");
    ExtendLookup(sys, diy, "colWidth");
  }

  /** `getDef(...)`: the first argument that is not `undefined` (`null` counts as given), or
      `undefined` when every argument is. */
  function GetDef(args: seq<Option<Value>>): (r: Option<Value>)
    ensures r.Some? <==> exists i | 0 <= i < |args| :: args[i].Some?
    ensures r.Some? ==> exists i | 0 <= i < |args| :: args[i] == r && forall j | 0 <= j < i :: args[j].None?
  {
    if |args| == 0 then None
    else if args[0].Some? then args[0]
    else
      var r := GetDef(args[1..]);
      assert forall i | 0 <= i < |args[1..]| :: args[1..][i] == args[i + 1];
      r
  }

  /** `getDef` returns the argument at the first position that is not `undefined`. */
  lemma {:induction false} GetDefFirst(args: seq<Option<Value>>, i: nat)
    requires i < |args| && args[i].Some?
    requires forall j | 0 <= j < i :: args[j].None?
    ensures GetDef(args) == args[i]
    decreases i
  {
    if i > 0 {
      assert forall j | 0 <= j < i - 1 :: args[1..][j] == args[j + 1];
      GetDefFirst(args[1..], i - 1);
    }
  }

  /** The value a style rule shows: the theme's own style first, then the custom style, then the
      system style, then the rule's default. */
  function StyleValue(themeStyle: Option<Value>, diy: seq<Field>, sys: seq<Field>, key: string, def: Value): (v: Value)
    ensures var ts := if TruthyOpt(themeStyle) then Member(themeStyle.value, key) else None;
            (ts.Some? ==> v == ts.value) &&
            (ts.None? && HasKey(diy, key) ==> Some(v) == Lookup(diy, key)) &&
            (ts.None? && !HasKey(diy, key) && HasKey(sys, key) ==> Some(v) == Lookup(sys, key)) &&
            (ts.None? && !HasKey(diy, key) && !HasKey(sys, key) ==> v == def)
  {
    var style := if TruthyOpt(themeStyle) then themeStyle.value else Obj([]);
    var args := [Member(style, key), Lookup(diy, key), Lookup(sys, key), Some(def)];
    if args[0].Some? then
      GetDefFirst(args, 0);
      args[0].value
    else if args[1].Some? then
      GetDefFirst(args, 1);
      args[1].value
    else if args[2].Some? then
      GetDefFirst(args, 2);
      args[2].value
    else
      GetDefFirst(args, 3);
      def
  }

  /** The `backdrop-filter` of the content boxes: `none` when the custom style sets `bgBlur` to
      `false`, otherwise a blur by the `contBgBlur` setting in pixels, 3 when nothing sets it. */
  function BlurFilter(themeStyle: Option<Value>, diy: seq<Field>, sys: seq<Field>): string {
    var n := StyleValue(themeStyle, diy, sys, "contBgBlur", Num(3));
    if Lookup(diy, "bgBlur") == Some(Bool(false)) then "none" else "blur(" + ValueString(n) + "px)"
  }

  /** Only `bgBlur: false` in the custom style turns the blur off; any other value, `null` or a
      missing key included, keeps it. */
  lemma BlurOff(themeStyle: Option<Value>, diy: seq<Field>, sys: seq<Field>)
    ensures BlurFilter(themeStyle, diy, sys) == "none" <==> Lookup(diy, "bgBlur") == Some(Bool(false))
  {
    if Lookup(diy, "bgBlur") != Some(Bool(false)) {
      assert BlurFilter(themeStyle, diy, sys)[0] == 'b';
    }
  }

  /** With no setting anywhere, the boxes are blurred by 3px. */
  lemma BlurDefault(themeStyle: Option<Value>, diy: seq<Field>, sys: seq<Field>)
    requires !TruthyOpt(themeStyle) && !HasKey(diy, "contBgBlur") && !HasKey(sys, "contBgBlur")
    requires !HasKey(diy, "bgBlur")
    ensures BlurFilter(themeStyle, diy, sys) == "blur(3px)"
  {
    assert NatToDec(3) == "3";
  }
}
