/**
 * traits/src/lib.rs: a configuration held as an ordered list of `(key, value)`
 * string pairs. `Config::get` looks a key up. `KeyValueConfigService` writes
 * a configuration as `key=value` lines and reads one back from text. The
 * writer and reader streams are left out: `write` produces the text it would
 * emit, and `read` parses the text it would have read.
 */
module Configs {
  import opened Wrappers
  import opened Text

  /** `Config { values }`. */
  datatype Config = Config(values: seq<(string, string)>)

  /** `get(key)`: the value of the first pair whose key is exactly `key`, or `None` when no key matches. */
  function Get(config: Config, key: string): (r: Option<string>)
    ensures r.None? <==> forall i | 0 <= i < |config.values| :: config.values[i].0 != key
    ensures r.Some? ==> exists i | 0 <= i < |config.values| ::
      config.values[i] == (key, r.value) && forall j | 0 <= j < i :: config.values[j].0 != key
    decreases |config.values|
  {
    if config.values == [] then None
    else if config.values[0].0 == key then Some(config.values[0].1)
    else
      var rest := Config(config.values[1..]);
      var r := Get(rest, key);
      assert forall i | 1 <= i < |config.values| :: config.values[i] == rest.values[i - 1];
      r
  }

  // ---------------------------------------------------------------------------
  // write

  /** The line `writeln!(to, "{0}={1}", key, value)` emits. */
  function Line(pair: (string, string)): string
  {
    pair.0 + "=" + pair.1 + "\n"
  }

  /** Everything `write` emits for `pairs`: one line per pair, in order. */
  function Render(pairs: seq<(string, string)>): string
    decreases |pairs|
  {
    if pairs == [] then "" else Render(pairs[..|pairs| - 1]) + Line(pairs[|pairs| - 1])
  }

  /** `Render` read from the front: the first pair's line comes first. */
  lemma {:induction false} RenderCons(p: (string, string), pairs: seq<(string, string)>)
    ensures Render([p] + pairs) == Line(p) + Render(pairs)
    decreases |pairs|
  {
    if pairs == [] {
      assert ([p] + pairs)[..0] == [];
    } else {
      var init, last := pairs[..|pairs| - 1], pairs[|pairs| - 1];
      var q := [p] + init;
      assert [p] + pairs == q + [last];
      assert pairs == init + [last];
      RenderCons(p, init);
      RenderSnoc(q, last);
      RenderSnoc(init, last);
    }
  }

  /** One more pair adds its line at the end. */
  lemma RenderSnoc(pairs: seq<(string, string)>, q: (string, string))
    ensures Render(pairs + [q]) == Render(pairs) + Line(q)
  {
    assert (pairs + [q])[..|pairs|] == pairs;
  }

  /** `write(config, to)`: the `for` loop over the pairs, emitting `key=value\n` for each. A failing
      sink is left out, so the text is the whole result. */
  method Write(config: Config) returns (out: string)
    ensures out == Render(config.values)
  {
    out := "";
    for i := 0 to |config.values|
      invariant out == Render(config.values[..i])
    {
      assert config.values[..i + 1][..i] == config.values[..i];
      out := out + Line(config.values[i]);
    }
    assert config.values[..|config.values|] == config.values;
  }

  // ---------------------------------------------------------------------------
  // Splitting and trimming

  /** `str::find(c)` on characters: the first index of `c`. */
  function IndexOf(s: string, c: char): (i: nat)
    requires c in s
    ensures i < |s| && s[i] == c && c !in s[..i]
  {
    if s[0] == c then 0 else 1 + IndexOf(s[1..], c)
  }

  /** `c` is found right after a prefix that does not hold it. */
  lemma {:induction false} IndexOfAfter(a: string, c: char, b: string)
    requires c !in a
    ensures c in a + [c] + b && IndexOf(a + [c] + b, c) == |a|
    decreases |a|
  {
    var s := a + [c] + b;
    assert s[|a|] == c;
    if a != [] {
      assert s[1..] == a[1..] + [c] + b;
      IndexOfAfter(a[1..], c, b);
    }
  }

  /** `str::split(c)`: the pieces between occurrences of `c`, empty ones included. */
  function Split(s: string, c: char): (parts: seq<string>)
    ensures |parts| >= 1
    ensures c in s ==> |parts| >= 2
    ensures forall k | 0 <= k < |parts| :: c !in parts[k]
    decreases |s|
  {
    if c in s then
      var i := IndexOf(s, c);
      [s[..i]] + Split(s[i + 1..], c)
    else [s]
  }

  /** The pieces glued back together with `c` between them. */
  function Join(parts: seq<string>, c: char): string
    requires |parts| >= 1
    decreases |parts|
  {
    if |parts| == 1 then parts[0] else parts[0] + [c] + Join(parts[1..], c)
  }

  /** Splitting loses nothing: the pieces join back to the text. */
  lemma {:induction false} JoinSplit(s: string, c: char)
    ensures Join(Split(s, c), c) == s
    decreases |s|
  {
    if c in s {
      var i := IndexOf(s, c);
      JoinSplit(s[i + 1..], c);
      assert Split(s, c)[1..] == Split(s[i + 1..], c);
      assert s == s[..i] + [c] + s[i + 1..];
    }
  }

  /** Splitting right after a piece without `c`. */
  lemma SplitAfter(a: string, c: char, b: string)
    requires c !in a
    ensures Split(a + [c] + b, c) == [a] + Split(b, c)
  {
    IndexOfAfter(a, c, b);
    var s := a + [c] + b;
    assert s[..|a|] == a && s[|a| + 1..] == b;
  }

  /** `str::split_terminator(c)`: as `split`, but a trailing empty piece is dropped. */
  function SplitTerminator(s: string, c: char): (parts: seq<string>)
    ensures |parts| <= |Split(s, c)|
  {
    var p := Split(s, c);
    if p[|p| - 1] == "" then p[..|p| - 1] else p
  }

  /** Rust's `char::is_whitespace`: the characters with the Unicode `White_Space` property. */
  predicate IsWhitespace(c: char)
  {
    var n := c as int;
    || 0x09 <= n <= 0x0D || n == 0x20 || n == 0x85 || n == 0xA0 || n == 0x1680
    || 0x2000 <= n <= 0x200A || n == 0x2028 || n == 0x2029 || n == 0x202F || n == 0x205F
    || n == 0x3000
  }

  function TrimStart(s: string): (r: string)
    ensures |r| <= |s| && r == s[|s| - |r|..]
    ensures forall i | 0 <= i < |s| - |r| :: IsWhitespace(s[i])
    ensures r == [] || !IsWhitespace(r[0])
    decreases |s|
  {
    if |s| > 0 && IsWhitespace(s[0]) then
      var r := TrimStart(s[1..]);
      assert forall i | 1 <= i < |s| - |r| :: s[i] == s[1..][i - 1];
      r
    else s
  }

  function TrimEnd(s: string): (r: string)
    ensures |r| <= |s| && r == s[..|r|]
    ensures forall i | |r| <= i < |s| :: IsWhitespace(s[i])
    ensures r == [] || !IsWhitespace(r[|r| - 1])
    decreases |s|
  {
    if |s| > 0 && IsWhitespace(s[|s| - 1]) then
      var r := TrimEnd(s[..|s| - 1]);
      assert forall i | |r| <= i < |s| - 1 :: s[i] == s[..|s| - 1][i];
      r
    else s
  }

  /** `str::trim`: `s` with its leading and trailing whitespace removed. The result is a slice of `s`,
      everything cut away is whitespace, and the result neither starts nor ends with whitespace. */
  function Trim(s: string): (r: string)
    ensures IsTrimOf(s, r)
    ensures r == [] || (!IsWhitespace(r[0]) && !IsWhitespace(r[|r| - 1]))
  {
    var t := TrimStart(s);
    var r := TrimEnd(t);
    TrimBothEnds(s, t, r);
    r
  }

  /** Cutting whitespace from the front and then from the back leaves a slice. */
  lemma TrimBothEnds(s: string, t: string, r: string)
    requires |t| <= |s| && t == s[|s| - |t|..] && forall k | 0 <= k < |s| - |t| :: IsWhitespace(s[k])
    requires t == [] || !IsWhitespace(t[0])
    requires |r| <= |t| && r == t[..|r|] && forall k | |r| <= k < |t| :: IsWhitespace(t[k])
    requires r == [] || !IsWhitespace(r[|r| - 1])
    ensures IsTrimOf(s, r)
    ensures r == [] || (!IsWhitespace(r[0]) && !IsWhitespace(r[|r| - 1]))
  {
    var i := |s| - |t|;
    assert r == s[i..i + |r|];
    assert forall k | i + |r| <= k < |s| :: s[k] == t[k - i];
    assert TrimmedSlice(s, r, i, i + |r|);
    if r != [] {
      assert r[0] == t[0];
    }
  }

  /** `r` is a slice of `s` with only whitespace cut away on either side. */
  ghost predicate IsTrimOf(s: string, r: string)
  {
    exists i, j :: TrimmedSlice(s, r, i, j)
  }

  /** `r` is `s[i..j]`, and everything before `i` and from `j` on is whitespace. */
  predicate TrimmedSlice(s: string, r: string, i: int, j: int)
  {
    && 0 <= i <= j <= |s| && r == s[i..j]
    && (forall k | 0 <= k < i :: IsWhitespace(s[k]))
    && (forall k | j <= k < |s| :: IsWhitespace(s[k]))
  }

  /** Text that starts and ends with non-whitespace is left alone by `trim`. */
  lemma TrimKeeps(s: string)
    requires s != [] && !IsWhitespace(s[0]) && !IsWhitespace(s[|s| - 1])
    ensures Trim(s) == s
  {
  }

  // ---------------------------------------------------------------------------
  // read

  /** The `filter` of `read`: `pos`, the byte offset of the first `=` (0 when there is none), must be
      neither 0 nor the offset of the last byte. */
  predicate KeepLine(line: string)
  {
    var pos := if '=' in line then Utf8Len(line[..IndexOf(line, '=')]) else 0;
    pos > 0 && pos < Utf8Len(line) - 1
  }

  /** The byte test of `KeepLine` is a character test: the first `=` is neither the first nor the
      last character, since `=` is a single byte. */
  lemma KeepLineByChars(line: string)
    ensures KeepLine(line) <==> '=' in line && 0 < IndexOf(line, '=') < |line| - 1
  {
    if '=' in line {
      var i := IndexOf(line, '=');
      Utf8LenAround(line, i);
    }
  }

  /** The bytes of a text: those before position `i`, one for `=` at `i`, and those after it. */
  lemma Utf8LenAround(line: string, i: nat)
    requires i < |line| && line[i] == '='
    ensures Utf8Len(line) == Utf8Len(line[..i]) + 1 + Utf8Len(line[i + 1..])
  {
    var before, at, after := line[..i], [line[i]], line[i + 1..];
    assert line == before + (at + after);
    Utf8LenAppend(before, at + after);
    Utf8LenAppend(at, after);
    Utf8LenOne(line[i]);
  }

  /** The `map` of `read`: the pieces before the first `=` and between it and the next one. */
  function ParseLine(line: string): (pair: (string, string))
    requires '=' in line
    ensures '=' !in pair.0 && '=' !in pair.1
    ensures pair.0 == line[..IndexOf(line, '=')]
    ensures var n := |pair.0| + 1 + |pair.1|;
      n <= |line| && line[..n] == pair.0 + "=" + pair.1 && (n == |line| || line[n] == '=')
  {
    var parts := Split(line, '=');
    SplitFirstPieces(line, '=');
    (parts[0], parts[1])
  }

  /** The first two pieces of a text that holds `c`, and where they lie in it. */
  lemma SplitFirstPieces(s: string, c: char)
    requires c in s
    ensures var parts := Split(s, c); var n := |parts[0]| + 1 + |parts[1]|;
      && parts[0] == s[..IndexOf(s, c)]
      && n <= |s| && s[..n] == parts[0] + [c] + parts[1] && (n == |s| || s[n] == c)
  {
    var i := IndexOf(s, c);
    var rest := s[i + 1..];
    assert Split(s, c) == [s[..i]] + Split(rest, c);
    if c in rest {
      SecondPieceBeforeSep(s, c, i, rest);
    } else {
      SecondPieceToEnd(s, c, i, rest);
    }
  }

  lemma SecondPieceBeforeSep(s: string, c: char, i: nat, rest: string)
    requires i < |s| && s[i] == c && rest == s[i + 1..] && c in rest
    ensures var n := i + 1 + |Split(rest, c)[0]|;
      n < |s| && s[..n] == s[..i] + [c] + Split(rest, c)[0] && s[n] == c
  {
    var j := IndexOf(rest, c);
    assert Split(rest, c)[0] == rest[..j];
    assert s[..i + 1 + j] == s[..i] + [c] + rest[..j];
  }

  lemma SecondPieceToEnd(s: string, c: char, i: nat, rest: string)
    requires i < |s| && s[i] == c && rest == s[i + 1..] && c !in rest
    ensures i + 1 + |Split(rest, c)[0]| == |s| && s == s[..i] + [c] + Split(rest, c)[0]
  {
    assert Split(rest, c)[0] == rest;
    assert s == s[..i] + [c] + rest;
  }

  /** What `read` can produce for one line: a non-empty key, and no `=` in the key or the value. */
  predicate ParsedPair(p: (string, string))
  {
    p.0 != "" && '=' !in p.0 && '=' !in p.1
  }

  /** One line through the `map(trim)`, the `filter` and the `map` of `read`. */
  function KeptPair(raw: string): (r: seq<(string, string)>)
    ensures |r| <= 1
    ensures forall k | 0 <= k < |r| :: ParsedPair(r[k])
  {
    var line := Trim(raw);
    KeepLineByChars(line);
    if KeepLine(line) then [ParseLine(line)] else []
  }

  /** The pipeline of `read` over its lines: trim each, keep those `KeepLine` accepts, parse them. */
  function ReadPairs(lines: seq<string>): (pairs: seq<(string, string)>)
    ensures |pairs| <= |lines|
    ensures forall k | 0 <= k < |pairs| :: ParsedPair(pairs[k])
    decreases |lines|
  {
    if lines == [] then []
    else
      var head := KeptPair(lines[0]);
      var tail := ReadPairs(lines[1..]);
      head + tail
  }

  /** `read(from)` on the text the stream holds: split on `\n` with no trailing empty piece, then
      `ReadPairs`. */
  function Read(contents: string): (config: Config)
    ensures |config.values| <= |SplitTerminator(contents, '\n')|
  {
    Config(ReadPairs(SplitTerminator(contents, '\n')))
  }

  // ---------------------------------------------------------------------------
  // Reading back what was written

  /** A pair `read` gives back as written: a key and a value, neither empty nor holding `=` or a line
      break, with no whitespace at the outer ends of the line. */
  predicate WellFormedPair(p: (string, string))
  {
    && p.0 != [] && p.1 != []
    && '=' !in p.0 && '=' !in p.1 && '\n' !in p.0 && '\n' !in p.1
    && !IsWhitespace(p.0[0]) && !IsWhitespace(p.1[|p.1| - 1])
  }

  /** The written lines without their line breaks. */
  function Lines(pairs: seq<(string, string)>): seq<string>
    decreases |pairs|
  {
    if pairs == [] then [] else [pairs[0].0 + "=" + pairs[0].1] + Lines(pairs[1..])
  }

  /** Splitting written text on `\n` gives its lines and one empty piece after the last break. */
  lemma {:induction false} SplitRendered(pairs: seq<(string, string)>)
    requires forall k | 0 <= k < |pairs| :: '\n' !in pairs[k].0 && '\n' !in pairs[k].1
    ensures Split(Render(pairs), '\n') == Lines(pairs) + [""]
    decreases |pairs|
  {
    if pairs != [] {
      var p := pairs[0];
      var rest := pairs[1..];
      assert pairs == [p] + rest;
      RenderCons(p, rest);
      var a := p.0 + "=" + p.1;
      assert '\n' !in a;
      assert Render(pairs) == a + ['\n'] + Render(rest);
      SplitAfter(a, '\n', Render(rest));
      SplitRendered(rest);
    }
  }

  /** One written line reads back as its pair. */
  lemma ReadLine(p: (string, string))
    requires WellFormedPair(p)
    ensures var line := p.0 + "=" + p.1; Trim(line) == line && KeepLine(line) && ParseLine(line) == p
  {
    var line := p.0 + "=" + p.1;
    TrimKeeps(line);
    IndexOfAfter(p.0, '=', p.1);
    KeepLineByChars(line);
    SplitAfter(p.0, '=', p.1);
  }

  /** One step of the pipeline. */
  lemma ReadPairsCons(line: string, rest: seq<string>)
    ensures ReadPairs([line] + rest) ==
      (if KeepLine(Trim(line)) then [ParseLine(Trim(line))] else []) + ReadPairs(rest)
  {
    assert ([line] + rest)[0] == line && ([line] + rest)[1..] == rest;
  }

  lemma ReadWrittenLine(p: (string, string), rest: seq<string>)
    requires WellFormedPair(p)
    ensures ReadPairs([p.0 + "=" + p.1] + rest) == [p] + ReadPairs(rest)
  {
    ReadLine(p);
    ReadPairsCons(p.0 + "=" + p.1, rest);
  }

  /** The pipeline gives back the pairs of well-formed lines, in order. */
  lemma {:induction false} ReadPairsLines(pairs: seq<(string, string)>)
    requires forall k | 0 <= k < |pairs| :: WellFormedPair(pairs[k])
    ensures ReadPairs(Lines(pairs)) == pairs
    decreases |pairs|
  {
    if pairs != [] {
      ReadPairsLines(pairs[1..]);
      ReadPairsLinesStep(pairs);
    }
  }

  lemma ReadPairsLinesStep(pairs: seq<(string, string)>)
    requires pairs != [] && WellFormedPair(pairs[0])
    requires ReadPairs(Lines(pairs[1..])) == pairs[1..]
    ensures ReadPairs(Lines(pairs)) == pairs
  {
    var p := pairs[0];
    assert Lines(pairs) == [p.0 + "=" + p.1] + Lines(pairs[1..]);
    ReadWrittenLine(p, Lines(pairs[1..]));
    assert pairs == [p] + pairs[1..];
  }

  /** `read` gives back what `write` wrote, pairs and order alike, when every pair is well formed. */
  lemma ReadAfterWrite(config: Config)
    requires forall k | 0 <= k < |config.values| :: WellFormedPair(config.values[k])
    ensures Read(Render(config.values)) == config
  {
    SplitRendered(config.values);
    var parts := Lines(config.values) + [""];
    assert parts[..|parts| - 1] == Lines(config.values);
    ReadPairsLines(config.values);
  }

  // ---------------------------------------------------------------------------
  // The tests

  /** `config_get_value`: keys are compared exactly, with case. */
  lemma GetIsCaseSensitive()
    ensures Get(Config([("hello", "world")]), "hello") == Some("world")
    ensures Get(Config([("hello", "world")]), "HELLO") == None
  {
  }

  /** `keyvalueservice_write_config`. */
  lemma WriteExample()
    ensures Render([("hello", "world"), ("foo", "bar")]) == "hello=world\nfoo=bar\n"
  {
    assert [("hello", "world"), ("foo", "bar")][..1] == [("hello", "world")];
  }

  /** `keyvalueservice_read_config`: both pairs of `"hello=world\nfoo=bar\n"` are read back. */
  lemma ReadExample()
    ensures var config := Read("hello=world\nfoo=bar\n");
      Get(config, "hello") == Some("world") && Get(config, "foo") == Some("bar")
  {
    var config := Config([("hello", "world"), ("foo", "bar")]);
    WriteExample();
    assert WellFormedPair(config.values[0]) && WellFormedPair(config.values[1]);
    ReadAfterWrite(config);
  }

  /** `read` on a single line. */
  lemma ReadSingle(line: string)
    ensures ReadPairs([line]) == if KeepLine(Trim(line)) then [ParseLine(Trim(line))] else []
  {
    ReadPairsCons(line, []);
    assert [line] + [] == [line];
  }

  /** A line is read exactly when, once trimmed, it holds `=` somewhere after its first and before
      its last character. Its pair is then the text before that `=` and the text up to the next one. */
  lemma ReadKeepsExactly(line: string)
    ensures var t := Trim(line);
      && (ReadPairs([line]) != [] <==> '=' in t && 0 < IndexOf(t, '=') < |t| - 1)
      && (ReadPairs([line]) != [] ==> ReadPairs([line]) == [ParseLine(t)])
  {
    ReadSingle(line);
    KeepLineByChars(Trim(line));
  }

  /** Pieces after a second `=` are discarded: `k=v=w` reads as `(k, v)`, and `k==w` as `(k, "")`. */
  lemma ReadDropsThirdPiece(k: string, v: string, w: string)
    requires k != [] && !IsWhitespace(k[0]) && '=' !in k && '=' !in v
    requires var line := k + "=" + v + "=" + w; !IsWhitespace(line[|line| - 1])
    ensures ReadPairs([k + "=" + v + "=" + w]) == [(k, v)]
  {
    var line := k + "=" + v + "=" + w;
    ReadSingle(line);
    ThirdPieceKept(k, v, w);
    ThirdPieceParsed(k, v, w);
  }

  lemma ThirdPieceKept(k: string, v: string, w: string)
    requires k != [] && !IsWhitespace(k[0]) && '=' !in k
    requires var line := k + "=" + v + "=" + w; !IsWhitespace(line[|line| - 1])
    ensures var line := k + "=" + v + "=" + w; Trim(line) == line && KeepLine(line)
  {
    var line := k + "=" + v + "=" + w;
    TrimKeeps(line);
    assert line == k + ['='] + (v + "=" + w);
    IndexOfAfter(k, '=', v + "=" + w);
    KeepLineByChars(line);
  }

  lemma ThirdPieceParsed(k: string, v: string, w: string)
    requires '=' !in k && '=' !in v
    ensures '=' in k + "=" + v + "=" + w && ParseLine(k + "=" + v + "=" + w) == (k, v)
  {
    var line := k + "=" + v + "=" + w;
    assert line == k + ['='] + (v + "=" + w);
    SplitAfter(k, '=', v + "=" + w);
    assert v + "=" + w == v + ['='] + w;
    SplitAfter(v, '=', w);
  }
}
