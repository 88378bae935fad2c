/**
  Escaping a fragment identifier for use after `#` in a `querySelector`
  selector (the helper `escapeCharacters`, which follows
  CSS.escape and the "serialize an identifier" algorithm of CSSOM,
  section 2.1 "Common Serializing Idioms").

  A JavaScript string is a sequence of UTF-16 code units; the helper works on
  one code unit at a time and never looks at surrogate pairs.
 */
module CssEscape {
  import opened Wrappers

  /** A UTF-16 code unit, as `String.prototype.charCodeAt` returns it. */
  type CodeUnit = c: int | 0 <= c < 0x1_0000

  const Nul: CodeUnit := 0x00
  const Space: CodeUnit := 0x20
  const NumberSign: CodeUnit := 0x23
  const Hyphen: CodeUnit := 0x2D
  const Backslash: CodeUnit := 0x5C
  const Underscore: CodeUnit := 0x5F

  /** The exception thrown for an identifier that contains U+0000. The helper
      means to throw `InvalidCharacterError`, but scrollspy.js never declares that
      name, so evaluating `new InvalidCharacterError(…)` throws a `ReferenceError`
      instead. */
  datatype EscapeError = ReferenceError

  predicate IsDigit(c: int) { 0x30 <= c <= 0x39 }

  /** U+0001 to U+001F and U+007F. */
  predicate IsControl(c: int) { 0x01 <= c <= 0x1F || c == 0x7F }

  predicate IsHexDigit(c: int) { IsDigit(c) || 0x41 <= c <= 0x46 || 0x61 <= c <= 0x66 }

  /** Code units that may appear unescaped in an identifier: U+0080 and above,
      `-`, `_`, digits and ASCII letters. */
  predicate IsNameCodeUnit(c: int)
  {
    c >= 0x80 || c == Hyphen || c == Underscore || IsDigit(c) ||
    0x41 <= c <= 0x5A || 0x61 <= c <= 0x7A
  }

  /** The first rule of the loop: the code unit at `i` is escaped as a code point
      (a control character, a leading digit, or a digit after a leading `-`). */
  predicate EscapesAsCodePoint(s: seq<CodeUnit>, i: nat)
    requires i < |s|
  {
    IsControl(s[i]) ||
    (i == 0 && IsDigit(s[i])) ||
    (i == 1 && IsDigit(s[i]) && s[0] == Hyphen)
  }

  /** The second rule: the code unit at `i` is copied as it is. */
  predicate CopiedAsIs(s: seq<CodeUnit>, i: nat)
    requires i < |s|
  {
    !EscapesAsCodePoint(s, i) && IsNameCodeUnit(s[i])
  }

  /** The lower-case hexadecimal digit for `d`. */
  function HexDigit(d: nat): (c: CodeUnit)
    requires d < 16
    ensures IsHexDigit(c) && !(0x41 <= c <= 0x46)
  {
    if d < 10 then 0x30 + d else 0x61 + (d - 10)
  }

  /** The value of one hexadecimal digit, either case. */
  function HexDigitValue(c: int): (d: nat)
    requires IsHexDigit(c)
    ensures d < 16
  {
    if IsDigit(c) then c - 0x30
    else if 0x41 <= c <= 0x46 then c - 0x41 + 10
    else c - 0x61 + 10
  }

  /** `n.toString(16)`: lower-case hexadecimal, most significant digit first,
      no padding. */
  function ToHex(n: nat): (h: seq<CodeUnit>)
    ensures |h| >= 1
    decreases n
  {
    if n < 16 then [HexDigit(n)] else ToHex(n / 16) + [HexDigit(n % 16)]
  }

  /** The number a run of hexadecimal digits denotes. */
  function HexValue(h: seq<int>): nat
    requires forall j :: 0 <= j < |h| ==> IsHexDigit(h[j])
  {
    if h == [] then 0 else HexValue(h[..|h| - 1]) * 16 + HexDigitValue(h[|h| - 1])
  }

  /** What the loop appends for the code unit at index `i`: a backslash, the
      hexadecimal code and a space; the code unit itself; or a backslash and the
      code unit. Only consulted when no code unit is U+0000. */
  function Segment(s: seq<CodeUnit>, i: nat): seq<CodeUnit>
    requires i < |s|
  {
    if EscapesAsCodePoint(s, i) then [Backslash] + ToHex(s[i]) + [Space]
    else if IsNameCodeUnit(s[i]) then [s[i]]
    else [Backslash, s[i]]
  }

  /** The segment of every code unit, in input order. */
  function Segments(s: seq<CodeUnit>): (parts: seq<seq<CodeUnit>>)
    ensures |parts| == |s|
    ensures forall i :: 0 <= i < |s| ==> parts[i] == Segment(s, i)
  {
    seq(|s|, i requires 0 <= i < |s| => Segment(s, i))
  }

  /** The concatenation of a list of strings. */
  function Flatten(parts: seq<seq<CodeUnit>>): seq<CodeUnit>
  {
    if parts == [] then [] else parts[0] + Flatten(parts[1..])
  }

  /** The result `escapeCharacters` returns, or the exception it throws. */
  function Escape(s: seq<CodeUnit>): Result<seq<CodeUnit>, EscapeError>
  {
    if Nul in s then Failure(ReferenceError) else Success(Flatten(Segments(s)))
  }

  /** `escapeCharacters(id)` (scrollspy.js): one pass over the code units,
      throwing on U+0000 and appending one segment per code unit otherwise. */
  method EscapeCharacters(id: seq<CodeUnit>) returns (r: Result<seq<CodeUnit>, EscapeError>)
    ensures r.Failure? <==> Nul in id
    ensures r == Escape(id)
  {
    var result: seq<CodeUnit> := [];
    var index := 0;
    while index < |id|
      invariant 0 <= index <= |id|
      invariant forall j :: 0 <= j < index ==> id[j] != Nul
      invariant result == Flatten(Segments(id)[..index])
    {
      var codeUnit := id[index];
      if codeUnit == Nul {
        assert Nul in id;
        return Failure(ReferenceError);
      }
      var segment;
      if IsControl(codeUnit) || (index == 0 && IsDigit(codeUnit)) ||
         (index == 1 && IsDigit(codeUnit) && id[0] == Hyphen)
      {
        segment := [Backslash] + ToHex(codeUnit) + [Space];
      } else if IsNameCodeUnit(codeUnit) {
        segment := [codeUnit];
      } else {
        segment := [Backslash, codeUnit];
      }
      assert segment == Segment(id, index);
      EscapedPrefixSnoc(id, index);
      result := result + segment;
      index := index + 1;
    }
    assert Nul !in id;
    assert Segments(id)[..index] == Segments(id);
    return Success(result);
  }

  /** `'#' + escapeCharacters(hash.substr(1))`: the selector `animateScroll`
      builds from a link's hash. The text after the `#` is the escaped id, which
      a CSS tokenizer reads through to its end as a name equal to the id (see
      `UnescapeEscape`); it starts an identifier, which an ID selector needs,
      exactly when the id is neither empty nor `-`. */
  method SelectorFor(hash: seq<CodeUnit>) returns (r: Result<seq<CodeUnit>, EscapeError>)
    ensures r.Failure? <==> Nul in (if hash == [] then [] else hash[1..])
    ensures r.Success? ==> |r.value| >= 1 && r.value[0] == NumberSign
    ensures r.Success? ==> r.value[1..] == Escape(if hash == [] then [] else hash[1..]).value
    ensures r.Success? ==> Unescape(r.value[1..]) == (if hash == [] then [] else hash[1..])
    ensures r.Success? ==>
              (StartsIdentifier(r.value[1..]) <==> |hash| >= 2 && hash[1..] != [Hyphen])
  {
    var id := if hash == [] then [] else hash[1..];
    var escaped := EscapeCharacters(id);
    match escaped {
      case Failure(e) => r := Failure(e);
      case Success(s) =>
        UnescapeEscape(id, []);
        assert s + [] == s && id + [] == id;
        EscapeStartsIdentifier(id);
        r := Success([NumberSign] + s);
        assert r.value[1..] == s;
    }
  }

  // ---------------------------------------------------------------------------
  // The structure of the output

  lemma {:induction false} FlattenSnoc(parts: seq<seq<CodeUnit>>, p: seq<CodeUnit>)
    ensures Flatten(parts + [p]) == Flatten(parts) + p
  {
    if parts != [] {
      assert (parts + [p])[1..] == parts[1..] + [p];
      FlattenSnoc(parts[1..], p);
    }
  }

  /** One more code unit adds its segment at the end. */
  lemma EscapedPrefixSnoc(s: seq<CodeUnit>, i: nat)
    requires i < |s|
    ensures Flatten(Segments(s)[..i + 1]) == Flatten(Segments(s)[..i]) + Segment(s, i)
  {
    var parts := Segments(s);
    assert parts[..i + 1] == parts[..i] + [parts[i]];
    FlattenSnoc(parts[..i], parts[i]);
  }

  /** The code unit at index `i` contributes exactly `Segment(s, i)`, after the
      segments of the code units before it and before those after it. */
  lemma EscapeAt(s: seq<CodeUnit>, i: nat)
    requires i < |s| && Nul !in s
    ensures Escape(s).Success?
    ensures Escape(s).value ==
              Flatten(Segments(s)[..i]) + Segment(s, i) + Flatten(Segments(s)[i + 1..])
  {
    FlattenAt(Segments(s), i);
  }

  lemma {:induction false} FlattenAt(parts: seq<seq<CodeUnit>>, i: nat)
    requires i < |parts|
    ensures Flatten(parts) == Flatten(parts[..i]) + parts[i] + Flatten(parts[i + 1..])
  {
    if i == 0 {
      assert parts[..0] == [];
      assert parts[1..] == parts[i + 1..];
    } else {
      var tail := parts[1..];
      FlattenAt(tail, i - 1);
      assert tail[..i - 1] == parts[..i][1..];
      assert tail[i - 1] == parts[i];
      assert tail[i..] == parts[i + 1..];
      assert Flatten(parts[..i]) == parts[0] + Flatten(tail[..i - 1]);
    }
  }

  /** A segment is one code unit long exactly when the code unit is copied, and
      longer otherwise. */
  lemma SegmentLength(s: seq<CodeUnit>, i: nat)
    requires i < |s|
    ensures |Segment(s, i)| >= 1
    ensures |Segment(s, i)| == 1 <==> CopiedAsIs(s, i)
  {
    if EscapesAsCodePoint(s, i) {
      assert |Segment(s, i)| == |ToHex(s[i])| + 2;
    }
  }

  lemma {:induction false} FlattenLength(parts: seq<seq<CodeUnit>>)
    requires forall i :: 0 <= i < |parts| ==> |parts[i]| >= 1
    ensures |Flatten(parts)| >= |parts|
    ensures |Flatten(parts)| == |parts| <==> forall i :: 0 <= i < |parts| ==> |parts[i]| == 1
  {
    if parts != [] {
      FlattenLength(parts[1..]);
      assert forall i :: 1 <= i < |parts| ==> parts[i] == parts[1..][i - 1];
    }
  }

  /** Every code unit yields at least one output code unit, and exactly one for
      all of them iff every code unit is copied as it is. */
  lemma EscapedLength(s: seq<CodeUnit>)
    ensures |Flatten(Segments(s))| >= |s|
    ensures |Flatten(Segments(s))| == |s| <==> forall i :: 0 <= i < |s| ==> CopiedAsIs(s, i)
  {
    forall i | 0 <= i < |s| ensures |Segments(s)[i]| >= 1 && (|Segments(s)[i]| == 1 <==> CopiedAsIs(s, i)) {
      SegmentLength(s, i);
    }
    FlattenLength(Segments(s));
  }

  /** The output is never shorter than the input, and equals the input exactly
      when every code unit is copied as it is: only name code units, not starting
      with a digit nor with `-` and a digit. */
  lemma EscapeIdentity(s: seq<CodeUnit>)
    ensures Escape(s).Success? ==> |Escape(s).value| >= |s|
    ensures Escape(s) == Success(s) <==>
              (forall i :: 0 <= i < |s| ==> IsNameCodeUnit(s[i])) &&
              !(|s| >= 1 && IsDigit(s[0])) &&
              !(|s| >= 2 && s[0] == Hyphen && IsDigit(s[1]))
  {
    EscapedLength(s);
    if (forall i :: 0 <= i < |s| ==> IsNameCodeUnit(s[i])) &&
       !(|s| >= 1 && IsDigit(s[0])) && !(|s| >= 2 && s[0] == Hyphen && IsDigit(s[1]))
    {
      assert Nul !in s by {
        forall i | 0 <= i < |s| ensures s[i] != Nul { assert IsNameCodeUnit(s[i]); }
      }
      forall i | 0 <= i < |s| ensures Segments(s)[i] == [s[i]] {
        assert CopiedAsIs(s, i);
      }
      FlattenUnits(Segments(s), s);
    }
    if Escape(s) == Success(s) {
      forall i | 0 <= i < |s| ensures IsNameCodeUnit(s[i]) {
        assert CopiedAsIs(s, i);
      }
      if |s| >= 1 { assert CopiedAsIs(s, 0); }
      if |s| >= 2 { assert CopiedAsIs(s, 1); }
    }
  }

  /** Strings of one code unit each concatenate to the string of those code units. */
  lemma {:induction false} FlattenUnits(parts: seq<seq<CodeUnit>>, s: seq<CodeUnit>)
    requires |parts| == |s|
    requires forall i :: 0 <= i < |s| ==> parts[i] == [s[i]]
    ensures Flatten(parts) == s
  {
    if s != [] {
      FlattenUnits(parts[1..], s[1..]);
      assert s == [s[0]] + s[1..];
    }
  }

  // ---------------------------------------------------------------------------
  // The output is a safe identifier

  /** No control character and no U+0000 appears in a segment. */
  lemma SegmentHasNoControl(s: seq<CodeUnit>, i: nat)
    requires i < |s| && s[i] != Nul
    ensures forall c :: c in Segment(s, i) ==> !IsControl(c) && c != Nul
  {
    if EscapesAsCodePoint(s, i) {
      var h := ToHex(s[i]);
      ToHexDigits(s[i]);
      assert Segment(s, i) == [Backslash] + h + [Space];
      forall c | c in h ensures !IsControl(c) && c != Nul {
        var j :| 0 <= j < |h| && h[j] == c;
      }
    }
  }

  lemma {:induction false} FlattenMembers(parts: seq<seq<CodeUnit>>, c: CodeUnit)
    requires c in Flatten(parts)
    ensures exists i :: 0 <= i < |parts| && c in parts[i]
  {
    if c !in parts[0] {
      FlattenMembers(parts[1..], c);
      var i :| 0 <= i < |parts[1..]| && c in parts[1..][i];
      assert c in parts[i + 1];
    }
  }

  /** No control character and no U+0000 appears in the output. */
  lemma EscapeHasNoControl(s: seq<CodeUnit>)
    requires Nul !in s
    ensures forall c :: c in Escape(s).value ==> !IsControl(c) && c != Nul
  {
    var parts := Segments(s);
    forall c | c in Flatten(parts) ensures !IsControl(c) && c != Nul {
      FlattenMembers(parts, c);
      var i :| 0 <= i < |parts| && c in parts[i];
      SegmentHasNoControl(s, i);
    }
  }

  /** The output does not start with a digit, nor with `-` followed by a digit.
      (A lone `-` is copied as it is.) */
  lemma EscapeIdentifierStart(s: seq<CodeUnit>)
    requires Nul !in s
    ensures var e := Escape(s).value;
      (|e| >= 1 ==> !IsDigit(e[0])) &&
      (|e| >= 2 && e[0] == Hyphen ==> !IsDigit(e[1]))
  {
    var parts := Segments(s);
    if |s| >= 1 {
      var first := Segment(s, 0);
      assert Flatten(parts) == first + Flatten(parts[1..]);
      assert first[0] == Backslash || first == [s[0]];
      if s[0] == Hyphen && |s| >= 2 {
        var second := Segment(s, 1);
        assert first == [Hyphen];
        assert parts[1..][0] == second;
        assert Flatten(parts[1..]) == second + Flatten(parts[1..][1..]);
        assert second[0] == Backslash || (second == [s[1]] && !IsDigit(s[1]));
      }
    }
  }

  /** A newline before CSS preprocessing: line feed, form feed or carriage return. */
  predicate IsNewline(c: int) { c == 0x0A || c == 0x0C || c == 0x0D }

  /** A code unit that may start an identifier: a letter, `_` or U+0080 and above. */
  predicate IsNameStart(c: int)
  {
    c >= 0x80 || c == Underscore || 0x41 <= c <= 0x5A || 0x61 <= c <= 0x7A
  }

  /** `t[i]` and the code unit after it form a valid escape (CSS Syntax Module
      Level 3, section 4.3.8): a backslash not followed by a newline. */
  predicate ValidEscapeAt(t: seq<int>, i: nat)
  {
    i < |t| && t[i] == Backslash && !(i + 1 < |t| && IsNewline(t[i + 1]))
  }

  /** The text starts an identifier (CSS Syntax Module Level 3, section 4.3.9):
      a name-start code unit or a valid escape, or a `-` followed by a
      name-start code unit, another `-` or a valid escape. */
  predicate StartsIdentifier(t: seq<int>)
  {
    |t| >= 1 &&
    if t[0] == Hyphen then |t| >= 2 && (IsNameStart(t[1]) || t[1] == Hyphen || ValidEscapeAt(t, 1))
    else IsNameStart(t[0]) || ValidEscapeAt(t, 0)
  }

  /** The first code unit of a segment, and the second when it is a backslash:
      a hex digit after a code-point escape, the code unit itself otherwise. */
  lemma SegmentStart(s: seq<CodeUnit>, i: nat)
    requires i < |s| && s[i] != Nul
    ensures var g := Segment(s, i);
      |g| >= 1 &&
      (g[0] == Backslash ==> |g| >= 2 && !IsNewline(g[1])) &&
      (g[0] != Backslash ==> g == [s[i]] && IsNameCodeUnit(s[i]) && !EscapesAsCodePoint(s, i))
  {
    if EscapesAsCodePoint(s, i) {
      ToHexDigits(s[i]);
      assert Segment(s, i)[1] == ToHex(s[i])[0];
    }
  }

  /** The output starts an identifier exactly when the input is neither empty
      nor a lone `-`. */
  lemma EscapeStartsIdentifier(s: seq<CodeUnit>)
    requires Nul !in s
    ensures StartsIdentifier(Escape(s).value) <==> s != [] && s != [Hyphen]
  {
    var parts := Segments(s);
    var e := Flatten(parts);
    if s != [] {
      var first := Segment(s, 0);
      SegmentStart(s, 0);
      assert e == first + Flatten(parts[1..]);
      if |s| >= 2 {
        var second := Segment(s, 1);
        SegmentStart(s, 1);
        assert parts[1..][0] == second;
        assert Flatten(parts[1..]) == second + Flatten(parts[1..][1..]);
        if first[0] != Backslash && s[0] == Hyphen {
          assert e[1..] == second + Flatten(parts[1..][1..]);
          assert e[1] == second[0];
          if second[0] == Backslash {
            assert e[2] == second[1];
          }
        }
      } else {
        assert parts[1..] == [];
      }
      if first[0] == Backslash {
        assert e[1] == first[1];
      }
    }
  }

  // ---------------------------------------------------------------------------
  // Hexadecimal codes

  /** `toString(16)` writes only hexadecimal digits, in lower case. */
  lemma {:induction false} ToHexDigits(n: nat)
    ensures forall j :: 0 <= j < |ToHex(n)| ==>
              IsHexDigit(ToHex(n)[j]) && !(0x41 <= ToHex(n)[j] <= 0x46)
    decreases n
  {
    if n >= 16 {
      ToHexDigits(n / 16);
      var h := ToHex(n);
      assert forall j :: 0 <= j < |h| - 1 ==> h[j] == ToHex(n / 16)[j];
    }
  }

  lemma {:induction false} HexValueToHex(n: nat)
    ensures forall j :: 0 <= j < |ToHex(n)| ==> IsHexDigit(ToHex(n)[j])
    ensures HexValue(ToHex(n)) == n
    decreases n
  {
    ToHexDigits(n);
    if n >= 16 {
      HexValueToHex(n / 16);
      var h := ToHex(n);
      assert h[..|h| - 1] == ToHex(n / 16);
    }
  }

  /** Codes are written without leading zeros. */
  lemma {:induction false} ToHexNoPadding(n: nat)
    requires n > 0
    ensures ToHex(n)[0] != 0x30
    decreases n
  {
    if n >= 16 {
      ToHexNoPadding(n / 16);
    }
  }

  /** Code units below U+0080 take at most two hexadecimal digits. */
  lemma ToHexShort(n: nat)
    requires n < 0x80
    ensures |ToHex(n)| <= 2
  {
    if n >= 16 {
      assert ToHex(n) == ToHex(n / 16) + [HexDigit(n % 16)];
    }
  }

  // ---------------------------------------------------------------------------
  // Reading the output back

  predicate IsWhitespace(c: int) { c == Space || c == 0x09 || IsNewline(c) }

  /** The number of hexadecimal digits at the start of `t`, at most `max`. */
  function HexRun(t: seq<int>, max: nat): (r: nat)
    ensures r <= |t| && r <= max
    ensures forall j :: 0 <= j < r ==> IsHexDigit(t[j])
    ensures r < |t| && r < max ==> !IsHexDigit(t[r])
  {
    if t == [] || max == 0 || !IsHexDigit(t[0]) then 0 else 1 + HexRun(t[1..], max - 1)
  }

  /** The code point an escape's hexadecimal value stands for. */
  function EscapedCodePoint(v: nat): int
  {
    if v == 0 || 0xD800 <= v <= 0xDFFF || v > 0x10_FFFF then 0xFFFD else v
  }

  /** How a CSS tokenizer reads a name (CSS Syntax Module Level 3, section
      4.3.11 "Consume an ident sequence", with section 4.3.7 "Consume an escaped
      code point"): a backslash and up to six hexadecimal digits, then one
      optional whitespace, stand for that code point; a backslash and any other
      code unit but a newline stand for that code unit; a trailing backslash
      stands for U+FFFD; a name code unit stands for itself; anything else (a
      backslash before a newline included) ends the name. */
  function Unescape(t: seq<CodeUnit>): seq<int>
    decreases |t|
  {
    if t == [] then []
    else
      var step := ReadOne(t);
      if step.1 == 0 then [] else [step.0] + Unescape(t[step.1..])
  }

  /** The code point a name continues with at the start of `t`, and the number
      of code units it takes; 0 code units when the name ends there. */
  function ReadOne(t: seq<CodeUnit>): (step: (int, nat))
    requires t != []
    ensures step.1 <= |t|
  {
    if t[0] == Backslash && |t| == 1 then (0xFFFD, 1)
    else if t[0] == Backslash && IsNewline(t[1]) then (0, 0)
    else if t[0] == Backslash && IsHexDigit(t[1]) then
      var k := HexRun(t[1..], 6);
      var space := if 1 + k < |t| && IsWhitespace(t[1 + k]) then 1 else 0;
      (EscapedCodePoint(HexValue(t[1..1 + k])), 1 + k + space)
    else if t[0] == Backslash then (t[1], 2)
    else if IsNameCodeUnit(t[0]) then (t[0], 1)
    else (0, 0)
  }

  /** A backslash, at most six hexadecimal digits and a space read back as the
      code point the digits denote, whatever follows. */
  lemma UnescapeHexEscape(h: seq<CodeUnit>, rest: seq<CodeUnit>)
    requires 1 <= |h| <= 6
    requires forall j :: 0 <= j < |h| ==> IsHexDigit(h[j])
    ensures Unescape([Backslash] + h + [Space] + rest) ==
              [EscapedCodePoint(HexValue(h))] + Unescape(rest)
  {
    var t := [Backslash] + h + [Space] + rest;
    var tail := t[1..];
    assert tail == h + [Space] + rest;
    assert tail[|h|] == Space;
    var k := HexRun(tail, 6);
    assert forall j :: 0 <= j < |h| ==> tail[j] == h[j];
    assert k == |h|;
    assert t[1..1 + k] == h;
    assert t[1 + k..] == [Space] + rest;
  }

  /** A name code unit reads back as itself. */
  lemma UnescapeCopied(c: CodeUnit, rest: seq<CodeUnit>)
    requires IsNameCodeUnit(c)
    ensures Unescape([c] + rest) == [c] + Unescape(rest)
  {
    assert ([c] + rest)[1..] == rest;
  }

  /** A backslash before a code unit that is neither a hexadecimal digit nor a
      newline reads back as that code unit. */
  lemma UnescapeCharEscape(c: CodeUnit, rest: seq<CodeUnit>)
    requires !IsHexDigit(c) && !IsNewline(c)
    ensures Unescape([Backslash, c] + rest) == [c] + Unescape(rest)
  {
    assert ([Backslash, c] + rest)[2..] == rest;
  }

  /** Each segment reads back as the code unit it was made from, whatever follows it. */
  lemma UnescapeSegment(s: seq<CodeUnit>, i: nat, rest: seq<CodeUnit>)
    requires i < |s| && s[i] != Nul
    ensures Unescape(Segment(s, i) + rest) == [s[i]] + Unescape(rest)
  {
    var c := s[i];
    if EscapesAsCodePoint(s, i) {
      ToHexShort(c);
      HexValueToHex(c);
      UnescapeHexEscape(ToHex(c), rest);
    } else if IsNameCodeUnit(c) {
      UnescapeCopied(c, rest);
    } else {
      UnescapeCharEscape(c, rest);
    }
  }

  /** The segments from index `lo` on read back as the code units from `lo` on,
      and reading goes on into whatever follows them. */
  lemma {:induction false} UnescapeSegments(s: seq<CodeUnit>, lo: nat, more: seq<CodeUnit>)
    requires lo <= |s|
    requires forall i :: lo <= i < |s| ==> s[i] != Nul
    ensures Unescape(Flatten(Segments(s)[lo..]) + more) == s[lo..] + Unescape(more)
    decreases |s| - lo
  {
    if lo < |s| {
      UnescapeSegmentsStep(s, lo, more);
      UnescapeSegments(s, lo + 1, more);
      SliceCons(s, lo);
      Combine(Unescape(Flatten(Segments(s)[lo..]) + more), s[lo],
              Unescape(Flatten(Segments(s)[lo + 1..]) + more), s[lo + 1..], Unescape(more), s[lo..]);
    } else {
      UnescapeSegmentsEnd(s, lo, more);
    }
  }

  /** A non-empty suffix is its first code unit, then the rest. */
  lemma SliceCons(s: seq<CodeUnit>, lo: nat)
    requires lo < |s|
    ensures s[lo..] == [s[lo]] + s[lo + 1..]
  {
  }

  /** Regrouping `[c] + (rest + tail)`; kept apart so that the proofs that use it
      need not unfold `Unescape`. */
  lemma Combine(x: seq<int>, c: int, after: seq<int>, rest: seq<int>, tail: seq<int>, whole: seq<int>)
    requires x == [c] + after && after == rest + tail && whole == [c] + rest
    ensures x == whole + tail
  {
  }

  /** Past the last segment, reading goes straight on into what follows. */
  lemma UnescapeSegmentsEnd(s: seq<CodeUnit>, lo: nat, more: seq<CodeUnit>)
    requires lo == |s|
    ensures Unescape(Flatten(Segments(s)[lo..]) + more) == s[lo..] + Unescape(more)
  {
    assert Segments(s)[lo..] == [];
    assert [] + more == more;
    assert s[lo..] == [];
  }

  /** Reading the segments from `lo` on starts with the code unit at `lo`. */
  lemma UnescapeSegmentsStep(s: seq<CodeUnit>, lo: nat, more: seq<CodeUnit>)
    requires lo < |s| && s[lo] != Nul
    ensures Unescape(Flatten(Segments(s)[lo..]) + more) ==
              [s[lo]] + Unescape(Flatten(Segments(s)[lo + 1..]) + more)
  {
    var rest := Flatten(Segments(s)[lo + 1..]);
    SegmentsCons(s, lo);
    UnescapeSegment(s, lo, rest + more);
    ReadPrefix(Segment(s, lo), rest, more, s[lo]);
  }

  /** A piece that reads as `c` in front of whatever follows it does so in front
      of `rest + more` however the concatenation is grouped. */
  lemma ReadPrefix(piece: seq<CodeUnit>, rest: seq<CodeUnit>, more: seq<CodeUnit>, c: int)
    requires Unescape(piece + (rest + more)) == [c] + Unescape(rest + more)
    ensures Unescape((piece + rest) + more) == [c] + Unescape(rest + more)
  {
    assert (piece + rest) + more == piece + (rest + more);
  }

  /** The segments from `lo` on are the segment at `lo`, then those after it. */
  lemma SegmentsCons(s: seq<CodeUnit>, lo: nat)
    requires lo < |s|
    ensures Flatten(Segments(s)[lo..]) == Segment(s, lo) + Flatten(Segments(s)[lo + 1..])
  {
    assert Segments(s)[lo..][1..] == Segments(s)[lo + 1..];
  }

  /** Round trip: a CSS tokenizer reads the escaped identifier through to its
      end, whatever follows it, and what it reads is the identifier. */
  lemma UnescapeEscape(s: seq<CodeUnit>, rest: seq<CodeUnit>)
    requires Nul !in s
    ensures Escape(s).Success? && Unescape(Escape(s).value + rest) == s + Unescape(rest)
  {
    UnescapeSegments(s, 0, rest);
    assert Segments(s)[0..] == Segments(s);
    assert s[0..] == s;
  }
}
