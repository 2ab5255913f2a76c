/**
 * pattern-matching/src/main.rs: classifiers that are each one `match`
 * returning a string. The `{}` of `format!` is `NatToDecimal` or
 * `IntToDecimal`, and `{:02x}` is two lowercase hexadecimal digits.
 */
module Patterns {
  import opened Wrappers
  import opened Text
  import opened Division

  /** `literal_match(choice)`. The first arm matches 0 and 1, although its text says "two". */
  function LiteralMatch(choice: nat): (r: string)
    ensures r == "zero or two" <==> choice <= 1
    ensures r == "two to nine" <==> 2 <= choice <= 9
    ensures r == "ten" <==> choice == 10
    ensures r == "anything else" <==> choice > 10
  {
    match choice
    case 0 | 1 => "zero or two"
    case 2 | 3 | 4 | 5 | 6 | 7 | 8 | 9 => "two to nine"
    case 10 => "ten"
    case _ => "anything else"
  }

  // ---------------------------------------------------------------------------
  // tuple_match

  const TuplePrefix := "Numbers at positions 1 and 3 are "
  const TupleMiddle := " and "
  const TupleSuffix := " respectively"

  /** `tuple_match(choices)`: the second and fourth components, in that order. */
  function TupleMatch(choices: (I32, I32, I32, I32)): string
  {
    match choices
    case (_, second, _, fourth) =>
      TuplePrefix + IntToDecimal(second as int) + TupleMiddle + IntToDecimal(fourth as int) + TupleSuffix
  }

  /** A character of a formatted integer. */
  predicate IsNumberChar(c: char)
  {
    '0' <= c <= '9' || c == '-'
  }

  /** The length of the longest prefix of number characters. */
  function LeadingNumber(s: string): (n: nat)
    ensures n <= |s|
    decreases |s|
  {
    if |s| > 0 && IsNumberChar(s[0]) then 1 + LeadingNumber(s[1..]) else 0
  }

  /** A number followed by a character that is not part of one: the number is the whole prefix. */
  lemma {:induction false} LeadingNumberStops(a: string, rest: string)
    requires forall i | 0 <= i < |a| :: IsNumberChar(a[i])
    requires rest != [] && !IsNumberChar(rest[0])
    ensures LeadingNumber(a + rest) == |a|
    decreases |a|
  {
    if a == [] {
      assert a + rest == rest;
    } else {
      assert (a + rest)[1..] == a[1..] + rest;
      LeadingNumberStops(a[1..], rest);
    }
  }

  /** Number characters only. */
  predicate IsNumberText(s: string)
  {
    forall i | 0 <= i < |s| :: IsNumberChar(s[i])
  }

  /** A number followed by text that starts with a non-number character splits in one way only. */
  lemma NumberBeforeText(a1: string, r1: string, a2: string, r2: string)
    requires IsNumberText(a1) && r1 != [] && !IsNumberChar(r1[0])
    requires IsNumberText(a2) && r2 != [] && !IsNumberChar(r2[0])
    requires a1 + r1 == a2 + r2
    ensures a1 == a2 && r1 == r2
  {
    LeadingNumberStops(a1, r1);
    LeadingNumberStops(a2, r2);
    assert a1 == (a1 + r1)[..|a1|];
    assert a2 == (a2 + r2)[..|a2|];
    assert r1 == (a1 + r1)[|a1|..];
    assert r2 == (a2 + r2)[|a2|..];
  }

  /** Regrouping a concatenation of five pieces from the end. */
  lemma Regroup(p: string, a: string, m: string, b: string, q: string)
    ensures p + a + m + b + q == p + (a + (m + (b + q)))
  {
  }

  /** Text with two numbers, each followed by text that does not start a number, gives both numbers
      back. */
  lemma TwoNumbersShown(p: string, m: string, q: string, a1: string, b1: string, a2: string, b2: string)
    requires IsNumberText(a1) && IsNumberText(b1) && IsNumberText(a2) && IsNumberText(b2)
    requires m != [] && !IsNumberChar(m[0]) && q != [] && !IsNumberChar(q[0])
    requires p + a1 + m + b1 + q == p + a2 + m + b2 + q
    ensures a1 == a2 && b1 == b2
  {
    Regroup(p, a1, m, b1, q);
    Regroup(p, a2, m, b2, q);
    var r1 := m + (b1 + q);
    var r2 := m + (b2 + q);
    assert a1 + r1 == (p + (a1 + r1))[|p|..];
    assert a2 + r2 == (p + (a2 + r2))[|p|..];
    NumberBeforeText(a1, r1, a2, r2);
    assert b1 + q == r1[|m|..] && b2 + q == r2[|m|..];
    NumberBeforeText(b1, q, b2, q);
  }

  /** `tuple_match` reports exactly the second and fourth components: two tuples give the same text
      exactly when those agree. */
  lemma TupleMatchReportsSecondAndFourth(t: (I32, I32, I32, I32), u: (I32, I32, I32, I32))
    ensures TupleMatch(t) == TupleMatch(u) <==> t.1 == u.1 && t.3 == u.3
  {
    if TupleMatch(t) == TupleMatch(u) {
      var a1, b1 := IntToDecimal(t.1 as int), IntToDecimal(t.3 as int);
      var a2, b2 := IntToDecimal(u.1 as int), IntToDecimal(u.3 as int);
      TwoNumbersShown(TuplePrefix, TupleMiddle, TupleSuffix, a1, b1, a2, b2);
      assert IntValue(a1) == IntValue(a2) && IntValue(b1) == IntValue(b2);
    }
  }

  // ---------------------------------------------------------------------------
  // destructuring_match and guarded_match

  /** Rust's `u8`. */
  newtype U8 = x: int | 0 <= x < 256

  datatype Background = Color(r: U8, g: U8, b: U8) | Image(path: string)

  datatype UserType = Casual | Power

  /** `MyApp`; `sercret_user_id` is spelled out. */
  datatype MyApp = MyApp(theme: Background, userType: UserType, secretUserId: nat)

  /** A lowercase hexadecimal digit. */
  function HexDigit(d: nat): (c: char)
    requires d < 16
  {
    if d < 10 then ('0' as int + d) as char else ('a' as int + d - 10) as char
  }

  /** The value of a lowercase hexadecimal digit. */
  function HexValue(c: char): nat
  {
    if '0' <= c <= '9' then c as int - '0' as int
    else if 'a' <= c <= 'f' then c as int - 'a' as int + 10
    else 0
  }

  /** `{:02x}`: two lowercase hexadecimal digits, which read back as the byte. */
  function Hex2(b: U8): (s: string)
    ensures |s| == 2 && 16 * HexValue(s[0]) + HexValue(s[1]) == b as int
  {
    [HexDigit(b as nat / 16), HexDigit(b as nat % 16)]
  }

  /** `#rrggbb`. */
  function ColorHex(r: U8, g: U8, b: U8): (s: string)
    ensures |s| == 6
  {
    Hex2(r) + Hex2(g) + Hex2(b)
  }

  const PowerUser := "A power user with id >"
  const CasualUser := "A casual user with id >"
  const ColorBackground := "< and color background (#"
  const ImageBackground := "< and image background (path: "

  /** `destructuring_match(app)`: one arm for each pairing of user type and background. Only the arm
      of a power user with a colour background closes with two parentheses. */
  function DestructuringMatch(app: MyApp): string
  {
    match app
    case MyApp(Color(b1, b2, b3), Power, uid) =>
      PowerUser + NatToDecimal(uid) + ColorBackground + ColorHex(b1, b2, b3) + "))"
    case MyApp(Image(path), Power, uid) =>
      PowerUser + NatToDecimal(uid) + ImageBackground + path + ")"
    case MyApp(Color(b1, b2, b3), Casual, uid) =>
      CasualUser + NatToDecimal(uid) + ColorBackground + ColorHex(b1, b2, b3) + ")"
    case MyApp(Image(path), Casual, uid) =>
      CasualUser + NatToDecimal(uid) + ImageBackground + path + ")"
  }

  function UserPrefix(u: UserType): string
  {
    if u.Power? then PowerUser else CasualUser
  }

  /** What follows the id. */
  function ThemeText(u: UserType, theme: Background): string
  {
    match theme
    case Color(b1, b2, b3) => ColorBackground + ColorHex(b1, b2, b3) + (if u.Power? then "))" else ")")
    case Image(path) => ImageBackground + path + ")"
  }

  /** Every arm has the same layout: user prefix, id, background text. */
  lemma DestructuringLayout(app: MyApp)
    ensures DestructuringMatch(app) ==
      UserPrefix(app.userType) + (NatToDecimal(app.secretUserId) + ThemeText(app.userType, app.theme))
  {
    var p := UserPrefix(app.userType);
    var n := NatToDecimal(app.secretUserId);
    var tail := if app.userType.Power? then "))" else ")";
    match app.theme
    case Color(b1, b2, b3) =>
      Regroup(p, n, ColorBackground, ColorHex(b1, b2, b3), tail);
    case Image(path) =>
      Regroup(p, n, ImageBackground, path, ")");
  }

  /** The third character of the text tells the user types apart. */
  lemma UserTypeShown(app: MyApp)
    ensures |DestructuringMatch(app)| > 2
    ensures DestructuringMatch(app)[2] == if app.userType.Power? then 'p' else 'c'
  {
    DestructuringLayout(app);
    var p := UserPrefix(app.userType);
    var rest := NatToDecimal(app.secretUserId) + ThemeText(app.userType, app.theme);
    assert (p + rest)[2] == p[2];
  }

  /** The background text gives back the background. */
  lemma ThemeShown(u: UserType, t1: Background, t2: Background)
    requires ThemeText(u, t1) == ThemeText(u, t2)
    ensures t1 == t2
  {
    var s := ThemeText(u, t1);
    var tail := if u.Power? then "))" else ")";
    ThemeKindShown(u, t1);
    ThemeKindShown(u, t2);
    if t1.Color? && t2.Color? {
      var h1 := ColorHex(t1.r, t1.g, t1.b);
      var h2 := ColorHex(t2.r, t2.g, t2.b);
      var start := |ColorBackground|;
      assert s == ColorBackground + (h1 + tail) == ColorBackground + (h2 + tail);
      assert h1 + tail == s[start..] == h2 + tail;
      assert h1 == (h1 + tail)[..6] && h2 == (h2 + tail)[..6];
      ColorHexShown(t1.r, t1.g, t1.b, t2.r, t2.g, t2.b);
    } else if t1.Image? && t2.Image? {
      var start := |ImageBackground|;
      assert s == ImageBackground + (t1.path + ")") == ImageBackground + (t2.path + ")");
      assert t1.path + ")" == s[start..] == t2.path + ")";
      assert t1.path == (t1.path + ")")[..|t1.path|] && t2.path == (t2.path + ")")[..|t2.path|];
    }
  }

  /** The seventh character of the background text tells colour from image, and the first is `<`. */
  lemma ThemeKindShown(u: UserType, t: Background)
    ensures |ThemeText(u, t)| > 6 && ThemeText(u, t)[0] == '<'
    ensures ThemeText(u, t)[6] == if t.Color? then 'c' else 'i'
  {
    var s := ThemeText(u, t);
    match t
    case Color(b1, b2, b3) =>
      var rest := ColorHex(b1, b2, b3) + (if u.Power? then "))" else ")");
      assert s == ColorBackground + rest;
      assert s[0] == ColorBackground[0] && s[6] == ColorBackground[6];
    case Image(path) =>
      var rest := path + ")";
      assert s == ImageBackground + rest;
      assert s[0] == ImageBackground[0] && s[6] == ImageBackground[6];
  }

  /** The six digits give back the three bytes. */
  lemma ColorHexShown(r1: U8, g1: U8, b1: U8, r2: U8, g2: U8, b2: U8)
    requires ColorHex(r1, g1, b1) == ColorHex(r2, g2, b2)
    ensures r1 == r2 && g1 == g2 && b1 == b2
  {
    var h := ColorHex(r1, g1, b1);
    assert Hex2(r1) == h[0..2] == Hex2(r2);
    assert Hex2(g1) == h[2..4] == Hex2(g2);
    assert Hex2(b1) == h[4..6] == Hex2(b2);
  }

  /** Each combination of user type and background has its own arm, and the text of the arm reports
      everything it matched: equal texts come only from equal apps. */
  lemma DestructuringMatchReportsAll(a: MyApp, b: MyApp)
    ensures DestructuringMatch(a) == DestructuringMatch(b) <==> a == b
  {
    if DestructuringMatch(a) == DestructuringMatch(b) {
      UserTypeShown(a);
      UserTypeShown(b);
      assert a.userType == b.userType;
      DestructuringLayout(a);
      DestructuringLayout(b);
      var p := UserPrefix(a.userType);
      var na, nb := NatToDecimal(a.secretUserId), NatToDecimal(b.secretUserId);
      var ra, rb := ThemeText(a.userType, a.theme), ThemeText(b.userType, b.theme);
      assert na + ra == (p + (na + ra))[|p|..];
      assert nb + rb == (p + (nb + rb))[|p|..];
      ThemeKindShown(a.userType, a.theme);
      ThemeKindShown(b.userType, b.theme);
      NumberBeforeText(na, ra, nb, rb);
      assert DecimalValue(na) == DecimalValue(nb);
      ThemeShown(a.userType, a.theme, b.theme);
    }
  }

  /** `guarded_match(app)`: for a power user with a colour background, `uid <= 100` is an early bird and
      any larger id a late comer. Everyone else, and every image background, is thanked. */
  function GuardedMatch(app: MyApp): (r: string)
    ensures r == "You are an early bird!" <==>
      app.userType.Power? && app.theme.Color? && app.secretUserId <= 100
    ensures r == "You are a late comer!" <==>
      app.userType.Power? && app.theme.Color? && app.secretUserId > 100
    ensures r == "Thank you for joining!" <==> !(app.userType.Power? && app.theme.Color?)
  {
    match app
    // The two guarded arms, then the fallback a failed guard falls through to.
    case MyApp(Color(_, _, _), Power, uid) =>
      if uid <= 100 then "You are an early bird!"
      else if uid > 100 then "You are a late comer!"
      else "Thank you for joining!"
    case _ => "Thank you for joining!"
  }

  /** `reference_match(m)`: the text of `Some`, or "Nothing". */
  function ReferenceMatch(m: Option<string>): (r: string)
    ensures m.Some? ==> r == m.value
    ensures m.None? ==> r == "Nothing"
  {
    match m
    case Some(s) => s
    case _ => "Nothing"
  }

  /** `literal_str_match(choice)`. */
  function LiteralStrMatch(choice: string): (r: string)
    ensures r == "world" <==> choice == "hello"
    ensures r == "anything else" <==> choice != "hello"
  {
    match choice
    case "hello" => "world"
    case _ => "anything else"
  }

  /** The calls in `main` on the literal, reference, guard and string matches. */
  lemma MainExamples()
    ensures LiteralMatch(0) == "zero or two" && LiteralMatch(10) == "ten" && LiteralMatch(100) == "anything else"
    ensures ReferenceMatch(Some("Hello")) == "Hello"
    ensures GuardedMatch(MyApp(Color(255, 255, 0), Power, 99)) == "You are an early bird!"
    ensures GuardedMatch(MyApp(Color(255, 255, 0), Power, 101)) == "You are a late comer!"
    ensures LiteralStrMatch("hello") == "world"
  {
  }

  /** The `tuple_match` call in `main`. */
  lemma MainTupleExample()
    ensures TupleMatch((0, 10, 0, 100)) == "Numbers at positions 1 and 3 are 10 and 100 respectively"
  {
    DecimalExamples();
  }

  /** The power user with id 99 of `main`: `{:02x}` digits and the doubled closing parenthesis. */
  lemma MainPowerExample()
    ensures DestructuringMatch(MyApp(Color(255, 255, 0), Power, 99))
      == "A power user with id >99< and color background (#ffff00))"
  {
    var app := MyApp(Color(255, 255, 0), Power, 99);
    assert DestructuringMatch(app) == PowerUser + NatToDecimal(99) + ColorBackground + ColorHex(255, 255, 0) + "))";
    DecimalExamples();
    ColorExample();
    PowerText99();
  }

  /** The casual user with an image background of `main`. */
  lemma MainCasualExample()
    ensures DestructuringMatch(MyApp(Image("path/to/image.png"), Casual, 10))
      == "A casual user with id >10< and image background (path: path/to/image.png)"
  {
    var app := MyApp(Image("path/to/image.png"), Casual, 10);
    assert DestructuringMatch(app) == CasualUser + NatToDecimal(10) + ImageBackground + "path/to/image.png" + ")";
    DecimalExamples();
    CasualText10();
  }

  /** The power user with id 101 of `main`. */
  lemma MainPower2Example()
    ensures DestructuringMatch(MyApp(Color(255, 255, 0), Power, 101))
      == "A power user with id >101< and color background (#ffff00))"
  {
    var app := MyApp(Color(255, 255, 0), Power, 101);
    assert DestructuringMatch(app) == PowerUser + NatToDecimal(101) + ColorBackground + ColorHex(255, 255, 0) + "))";
    DecimalExamples();
    ColorExample();
    PowerText101();
  }

  /** The text of the first power user, piece by piece. */
  lemma PowerText99()
    ensures PowerUser + "99" + ColorBackground + "ffff00" + "))"
      == "A power user with id >99< and color background (#ffff00))"
  {
    assert PowerUser + "99" == "A power user with id >99";
    assert "A power user with id >99" + ColorBackground == "A power user with id >99< and color background (#";
    assert "A power user with id >99< and color background (#" + "ffff00" == "A power user with id >99< and color background (#ffff00";
    assert "A power user with id >99< and color background (#ffff00" + "))" == "A power user with id >99< and color background (#ffff00))";
  }

  /** The text of the casual user, piece by piece. */
  lemma CasualText10()
    ensures CasualUser + "10" + ImageBackground + "path/to/image.png" + ")"
      == "A casual user with id >10< and image background (path: path/to/image.png)"
  {
    assert CasualUser + "10" == "A casual user with id >10";
    assert "A casual user with id >10" + ImageBackground == "A casual user with id >10< and image background (path: ";
    assert "A casual user with id >10< and image background (path: " + "path/to/image.png" == "A casual user with id >10< and image background (path: path/to/image.png";
    assert "A casual user with id >10< and image background (path: path/to/image.png" + ")" == "A casual user with id >10< and image background (path: path/to/image.png)";
  }

  /** The text of the second power user, piece by piece. */
  lemma PowerText101()
    ensures PowerUser + "101" + ColorBackground + "ffff00" + "))"
      == "A power user with id >101< and color background (#ffff00))"
  {
    assert PowerUser + "101" == "A power user with id >101";
    assert "A power user with id >101" + ColorBackground == "A power user with id >101< and color background (#";
    assert "A power user with id >101< and color background (#" + "ffff00" == "A power user with id >101< and color background (#ffff00";
    assert "A power user with id >101< and color background (#ffff00" + "))" == "A power user with id >101< and color background (#ffff00))";
  }

  /** The colour of `main` as `#{:02x}{:02x}{:02x}` writes it. */
  lemma ColorExample()
    ensures ColorHex(255, 255, 0) == "ffff00"
  {
    assert Hex2(255) == "ff" && Hex2(0) == "00";
  }

  /** The decimal text of the ids and numbers `main` passes. */
  lemma DecimalExamples()
    ensures NatToDecimal(10) == "10" && NatToDecimal(99) == "99"
    ensures NatToDecimal(100) == "100" && NatToDecimal(101) == "101"
    ensures IntToDecimal(10) == "10" && IntToDecimal(100) == "100"
  {
    assert NatToDecimal(1) == "1" && NatToDecimal(9) == "9" && NatToDecimal(0) == "0";
    assert NatToDecimal(10) == "10" && NatToDecimal(99) == "99";
  }
}
