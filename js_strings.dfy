/**
 * The JavaScript string built-ins the venue pipeline relies on, stated over `seq<char>`:
 * `split` on a one-character separator or on `/\s+/`, `join`, `trim`, `toLowerCase` (ASCII letters only),
 * `includes`, `parseInt` (no radix argument) and `String(n)` for a natural number.
 */
module JsStrings {
  import opened JsValues

  /** The WhiteSpace and LineTerminator code points of ECMAScript: what `trim` removes and `\s` matches. */
  predicate IsWhitespace(c: char)
  {
    var n := c as int;
    || n == 0x09 || n == 0x0A || n == 0x0B || n == 0x0C || n == 0x0D || n == 0x20
    || n == 0xA0 || n == 0x1680 || (0x2000 <= n <= 0x200A) || n == 0x2028 || n == 0x2029
    || n == 0x202F || n == 0x205F || n == 0x3000 || n == 0xFEFF
  }

  predicate AllWhitespace(s: string)
  {
    forall i :: 0 <= i < |s| ==> IsWhitespace(s[i])
  }

  /** Neither end of `s` is whitespace. */
  predicate IsTrimmed(s: string)
  {
    s == [] || (!IsWhitespace(s[0]) && !IsWhitespace(s[|s| - 1]))
  }

  /** `s.trimStart()` */
  function TrimStart(s: string): (r: string)
    ensures |r| <= |s|
  {
    if s != [] && IsWhitespace(s[0]) then TrimStart(s[1..]) else s
  }

  /** `trimStart` drops the leading whitespace and nothing else. */
  lemma {:induction false} TrimStartDrops(s: string)
    ensures var r := TrimStart(s);
      && r == s[|s| - |r|..]
      && (r == [] || !IsWhitespace(r[0]))
      && AllWhitespace(s[..|s| - |r|])
  {
    if s != [] && IsWhitespace(s[0]) {
      TrimStartDrops(s[1..]);
      var r := TrimStart(s);
      assert s[..|s| - |r|] == [s[0]] + s[1..][..|s| - 1 - |r|];
    }
  }

  /** `s.trimEnd()` */
  function TrimEnd(s: string): (r: string)
    ensures |r| <= |s|
  {
    if s != [] && IsWhitespace(s[|s| - 1]) then TrimEnd(s[..|s| - 1]) else s
  }

  /** `trimEnd` drops the trailing whitespace and nothing else. */
  lemma {:induction false} TrimEndDrops(s: string)
    ensures var r := TrimEnd(s);
      && r == s[..|r|]
      && (r == [] || !IsWhitespace(r[|r| - 1]))
      && AllWhitespace(s[|r|..])
  {
    if s != [] && IsWhitespace(s[|s| - 1]) {
      TrimEndDrops(s[..|s| - 1]);
      var r := TrimEnd(s);
      assert s[|r|..] == s[..|s| - 1][|r|..] + [s[|s| - 1]];
    }
  }

  /** `s.trim()` */
  function Trim(s: string): string
  {
    TrimEnd(TrimStart(s))
  }

  /** `trim` leaves no whitespace at either end, is empty exactly on blank text, and leaves trimmed text alone. */
  lemma TrimSpec(s: string)
    ensures IsTrimmed(Trim(s))
    ensures Trim(s) == [] <==> AllWhitespace(s)
    ensures IsTrimmed(s) ==> Trim(s) == s
  {
    var t := TrimStart(s);
    var r := TrimEnd(t);
    TrimStartDrops(s);
    TrimEndDrops(t);
    if r == [] {
      assert s == s[..|s| - |t|] + t;
      assert AllWhitespace(t[|r|..]);
    }
  }

  /** `trim` only removes characters: every character of the trimmed text occurs in the text. */
  lemma TrimKeepsCharacters(s: string)
    ensures forall c :: c in Trim(s) ==> c in s
  {
    var t := TrimStart(s);
    TrimStartDrops(s);
    TrimEndDrops(t);
    forall c | c in Trim(s)
      ensures c in s
    {
      var k :| 0 <= k < |Trim(s)| && Trim(s)[k] == c;
      assert t[k] == c;
      assert s[|s| - |t| + k] == c;
    }
  }

  /** `pieces.map(p => p.trim())` */
  function TrimAll(pieces: seq<string>): (r: seq<string>)
    ensures |r| == |pieces|
    ensures forall i :: 0 <= i < |r| ==> r[i] == Trim(pieces[i])
  {
    if pieces == [] then [] else [Trim(pieces[0])] + TrimAll(pieces[1..])
  }

  /** `s.split(sep)` for a one-character separator: the pieces between the separators, at least one. */
  function Split(s: string, sep: char): (r: seq<string>)
    ensures |r| >= 1
  {
    if s == [] then [""]
    else
      var rest := Split(s[1..], sep);
      if s[0] == sep then [""] + rest else [[s[0]] + rest[0]] + rest[1..]
  }

  /** No piece of a split holds the separator. */
  lemma {:induction false} SplitPiecesLackSeparator(s: string, sep: char)
    ensures forall i :: 0 <= i < |Split(s, sep)| ==> sep !in Split(s, sep)[i]
  {
    if s != [] {
      SplitPiecesLackSeparator(s[1..], sep);
      var rest, r := Split(s[1..], sep), Split(s, sep);
      if s[0] == sep {
        assert forall i :: 1 <= i < |r| ==> r[i] == rest[i - 1];
      } else {
        assert forall i :: 1 <= i < |r| ==> r[i] == rest[i];
        assert r[0] == [s[0]] + rest[0];
      }
    }
  }

  /** `pieces.join(sep)` */
  function Join(pieces: seq<string>, sep: char): string
  {
    if pieces == [] then ""
    else if |pieces| == 1 then pieces[0]
    else pieces[0] + [sep] + Join(pieces[1..], sep)
  }

  /** Joining the pieces of a split gives back the string. */
  lemma {:induction false} JoinSplit(s: string, sep: char)
    ensures Join(Split(s, sep), sep) == s
  {
    if s != [] {
      var rest := Split(s[1..], sep);
      JoinSplit(s[1..], sep);
      if s[0] == sep {
        assert Split(s, sep)[1..] == rest;
      } else {
        var r := Split(s, sep);
        if |rest| == 1 {
          assert r == [[s[0]] + rest[0]];
        } else {
          assert r[1..] == rest[1..];
          assert Join(rest, sep) == rest[0] + [sep] + Join(rest[1..], sep);
        }
      }
    }
  }

  lemma {:induction false} SplitWithoutSeparator(p: string, sep: char)
    requires sep !in p
    ensures Split(p, sep) == [p]
  {
    if p != [] {
      SplitWithoutSeparator(p[1..], sep);
      assert [p[0]] + p[1..] == p;
    }
  }

  lemma {:induction false} SplitAfterPiece(p: string, t: string, sep: char)
    requires sep !in p
    ensures Split(p + [sep] + t, sep) == [p] + Split(t, sep)
  {
    var s := p + [sep] + t;
    if p == [] {
      assert s[1..] == t;
    } else {
      assert s[1..] == p[1..] + [sep] + t;
      SplitAfterPiece(p[1..], t, sep);
      assert [p[0]] + p[1..] == p;
    }
  }

  /** Splitting a join of separator-free pieces gives back the pieces; an empty list joins to "" and splits to [""]. */
  lemma {:induction false} SplitJoin(pieces: seq<string>, sep: char)
    requires pieces != []
    requires forall i :: 0 <= i < |pieces| ==> sep !in pieces[i]
    ensures Split(Join(pieces, sep), sep) == pieces
  {
    if |pieces| == 1 {
      SplitWithoutSeparator(pieces[0], sep);
    } else {
      SplitJoin(pieces[1..], sep);
      SplitAfterPiece(pieces[0], Join(pieces[1..], sep), sep);
      assert [pieces[0]] + pieces[1..] == pieces;
    }
  }

  /** `s.split(/\s+/)`: the pieces between runs of whitespace, at least one. */
  function SplitOnWhitespace(s: string): (r: seq<string>)
    ensures |r| >= 1
  {
    if s == [] then [""]
    else
      var rest := SplitOnWhitespace(s[1..]);
      if IsWhitespace(s[0]) then (if |s| >= 2 && IsWhitespace(s[1]) then rest else [""] + rest)
      else [[s[0]] + rest[0]] + rest[1..]
  }

  /** A string without whitespace is its own single piece. */
  lemma {:induction false} SplitOnWhitespaceWithout(s: string)
    requires forall i :: 0 <= i < |s| ==> !IsWhitespace(s[i])
    ensures SplitOnWhitespace(s) == [s]
  {
    if s != [] {
      SplitOnWhitespaceWithout(s[1..]);
      assert [s[0]] + s[1..] == s;
    }
  }

  /** Each piece of a whitespace split is free of whitespace. */
  lemma {:induction false} SplitOnWhitespacePieces(s: string)
    ensures forall k, i :: 0 <= k < |SplitOnWhitespace(s)| && 0 <= i < |SplitOnWhitespace(s)[k]| ==>
      !IsWhitespace(SplitOnWhitespace(s)[k][i])
  {
    if s != [] {
      SplitOnWhitespacePieces(s[1..]);
      var rest := SplitOnWhitespace(s[1..]);
      var r := SplitOnWhitespace(s);
      if !IsWhitespace(s[0]) {
        assert r[0] == [s[0]] + rest[0];
        assert forall k :: 1 <= k < |r| ==> r[k] == rest[k];
      } else if !(|s| >= 2 && IsWhitespace(s[1])) {
        assert forall k :: 1 <= k < |r| ==> r[k] == rest[k - 1];
      }
    }
  }

  /** `c.toLowerCase()` for the ASCII letters; every other character is left as it is. */
  function ToLowerChar(c: char): char
  {
    if 'A' <= c <= 'Z' then (c as int + 32) as char else c
  }

  /** `s.toLowerCase()` restricted to ASCII letters. */
  function ToLower(s: string): (r: string)
    ensures |r| == |s|
    ensures forall i :: 0 <= i < |s| ==> r[i] == ToLowerChar(s[i])
  {
    seq(|s|, i requires 0 <= i < |s| => ToLowerChar(s[i]))
  }

  predicate IsLowerAsciiLetter(c: char)
  {
    'a' <= c <= 'z'
  }

  /** `t` spells `w` letter for letter, each letter in lower or upper case. */
  predicate SpellsIgnoringCase(t: string, w: string)
  {
    |t| == |w| && forall i :: 0 <= i < |w| ==> t[i] == w[i] || t[i] as int == w[i] as int - 32
  }

  /** A string lower-cases to a word of lower-case ASCII letters exactly when it spells that word in any letter case. */
  lemma LowerCaseEquals(t: string, w: string)
    requires forall i :: 0 <= i < |w| ==> IsLowerAsciiLetter(w[i])
    ensures ToLower(t) == w <==> SpellsIgnoringCase(t, w)
  {
    if SpellsIgnoringCase(t, w) {
      assert forall i :: 0 <= i < |w| ==> ToLower(t)[i] == w[i];
    }
  }

  /** `s.startsWith(prefix)`, character by character. */
  predicate StartsWith(s: string, prefix: string)
  {
    prefix == [] || (s != [] && s[0] == prefix[0] && StartsWith(s[1..], prefix[1..]))
  }

  lemma {:induction false} StartsWithIsPrefix(s: string, prefix: string)
    ensures StartsWith(s, prefix) <==> prefix <= s
  {
    if prefix != [] && s != [] {
      StartsWithIsPrefix(s[1..], prefix[1..]);
      if s[0] == prefix[0] && prefix[1..] <= s[1..] {
        assert prefix == [s[0]] + prefix[1..];
      }
    }
  }

  /** `s.includes(sub)`; every string includes "". */
  predicate Contains(s: string, sub: string)
    decreases |s|
  {
    StartsWith(s, sub) || (s != [] && Contains(s[1..], sub))
  }

  /** `includes` finds an occurrence at any position. */
  lemma {:induction false} ContainsAt(s: string, sub: string, i: nat)
    requires i + |sub| <= |s| && s[i..i + |sub|] == sub
    ensures Contains(s, sub)
  {
    if i > 0 {
      assert s[1..][i - 1..i - 1 + |sub|] == s[i..i + |sub|];
      ContainsAt(s[1..], sub, i - 1);
    } else {
      StartsWithIsPrefix(s, sub);
    }
  }

  /** A prefix none of whose characters could start an occurrence of `sub` does not change `includes`. */
  lemma {:induction false} ContainsSkipPrefix(p: string, t: string, sub: string)
    requires sub != []
    requires forall i :: 0 <= i < |p| ==> p[i] != sub[0]
    ensures Contains(p + t, sub) == Contains(t, sub)
  {
    if p != [] {
      assert (p + t)[1..] == p[1..] + t;
      assert !StartsWith(p + t, sub) by { assert (p + t)[0] == p[0]; }
      ContainsSkipPrefix(p[1..], t, sub);
    } else {
      assert p + t == t;
    }
  }

  /** The regular-expression class `[a-z0-9]`. */
  predicate IsLowerAlnum(c: char)
  {
    'a' <= c <= 'z' || '0' <= c <= '9'
  }

  /** `s` starts with `prefix` once both are lower-cased (`prefix` is already lower case in every use). */
  predicate StartsWithIgnoringCase(s: string, prefix: string)
  {
    prefix == [] || (s != [] && ToLowerChar(s[0]) == prefix[0] && StartsWithIgnoringCase(s[1..], prefix[1..]))
  }

  /** A case-insensitive search: `/sub/i.test(s)` for a lower-case literal `sub`. */
  predicate ContainsIgnoringCase(s: string, sub: string)
    decreases |s|
  {
    StartsWithIgnoringCase(s, sub) || (s != [] && ContainsIgnoringCase(s[1..], sub))
  }

  lemma {:induction false} StartsWithIgnoringCaseOfLower(s: string, prefix: string)
    ensures StartsWithIgnoringCase(s, prefix) == StartsWith(ToLower(s), prefix)
  {
    if prefix != [] && s != [] {
      assert ToLower(s)[1..] == ToLower(s[1..]);
      StartsWithIgnoringCaseOfLower(s[1..], prefix[1..]);
    }
  }

  /** The case-insensitive search is `s.toLowerCase().includes(sub)`. */
  lemma {:induction false} ContainsIgnoringCaseOfLower(s: string, sub: string)
    ensures ContainsIgnoringCase(s, sub) == Contains(ToLower(s), sub)
    decreases |s|
  {
    StartsWithIgnoringCaseOfLower(s, sub);
    if s != [] {
      assert ToLower(s)[1..] == ToLower(s[1..]);
      ContainsIgnoringCaseOfLower(s[1..], sub);
    }
  }

  predicate IsDigit(c: char)
  {
    '0' <= c <= '9'
  }

  predicate AllDigits(s: string)
  {
    forall i :: 0 <= i < |s| ==> IsDigit(s[i])
  }

  function DigitChar(d: nat): (c: char)
    requires d < 10
    ensures IsDigit(c)
  {
    ('0' as int + d) as char
  }

  function DigitValue(c: char): (d: nat)
    requires IsDigit(c)
    ensures d < 10 && DigitChar(d) == c
  {
    c as int - '0' as int
  }

  /** `String(n)`: the decimal digits of n, with no leading zero. */
  function NatToString(n: nat): (r: string)
    ensures r != [] && AllDigits(r)
    ensures r[0] == '0' <==> n == 0
    ensures n < 10 <==> |r| == 1
  {
    if n < 10 then [DigitChar(n)] else NatToString(n / 10) + [DigitChar(n % 10)]
  }

  /** The number a string of decimal digits denotes. */
  function DecValue(s: string): nat
    requires AllDigits(s)
  {
    if s == [] then 0 else DecValue(s[..|s| - 1]) * 10 + DigitValue(s[|s| - 1])
  }

  lemma {:induction false} DecValueOfNatToString(n: nat)
    ensures DecValue(NatToString(n)) == n
  {
    if n >= 10 {
      var s := NatToString(n);
      assert s[..|s| - 1] == NatToString(n / 10);
      DecValueOfNatToString(n / 10);
    }
  }

  /** Distinct numbers have distinct decimal strings. */
  lemma NatToStringInjective(m: nat, n: nat)
    requires NatToString(m) == NatToString(n)
    ensures m == n
  {
    DecValueOfNatToString(m);
    DecValueOfNatToString(n);
  }

  /** The longest prefix of s made of decimal digits. */
  function DigitPrefix(s: string): (r: string)
    ensures |r| <= |s|
  {
    if s != [] && IsDigit(s[0]) then [s[0]] + DigitPrefix(s[1..]) else []
  }

  lemma {:induction false} DigitPrefixSpec(s: string)
    ensures DigitPrefix(s) <= s && AllDigits(DigitPrefix(s))
    ensures AllDigits(s) ==> DigitPrefix(s) == s
  {
    if s != [] && IsDigit(s[0]) {
      DigitPrefixSpec(s[1..]);
      assert s == [s[0]] + s[1..];
    }
  }

  predicate IsHexDigit(c: char)
  {
    IsDigit(c) || 'a' <= c <= 'f' || 'A' <= c <= 'F'
  }

  function HexDigitValue(c: char): nat
    requires IsHexDigit(c)
  {
    if IsDigit(c) then DigitValue(c)
    else if 'a' <= c <= 'f' then c as int - 'a' as int + 10
    else c as int - 'A' as int + 10
  }

  /** The longest prefix of s made of hexadecimal digits. */
  function HexPrefix(s: string): (r: string)
    ensures |r| <= |s|
  {
    if s != [] && IsHexDigit(s[0]) then [s[0]] + HexPrefix(s[1..]) else []
  }

  lemma {:induction false} HexPrefixSpec(s: string)
    ensures HexPrefix(s) <= s
    ensures forall i :: 0 <= i < |HexPrefix(s)| ==> IsHexDigit(HexPrefix(s)[i])
  {
    if s != [] && IsHexDigit(s[0]) {
      HexPrefixSpec(s[1..]);
      assert s == [s[0]] + s[1..];
    }
  }

  function HexValue(s: string): nat
    requires forall i :: 0 <= i < |s| ==> IsHexDigit(s[i])
  {
    if s == [] then 0 else HexValue(s[..|s| - 1]) * 16 + HexDigitValue(s[|s| - 1])
  }

  /**
   * `parseInt(s)` with no radix: leading whitespace skipped, one optional sign, a `0x`/`0X`
   * prefix selecting base 16, then the longest run of digits; no digit at all is NaN (`None`).
   */
  function ParseInt(s: string): Option<int>
  {
    ParseSigned(TrimStart(s))
  }

  /** An optional sign, then the magnitude. */
  function ParseSigned(t: string): Option<int>
  {
    if t == [] then None
    else if t[0] == '-' then
      var m := ParseMagnitude(t[1..]);
      if m.None? then None else var v: int := m.value; Some(-v)
    else if t[0] == '+' then Lift(ParseMagnitude(t[1..]))
    else Lift(ParseMagnitude(t))
  }

  function Lift(m: Option<nat>): Option<int>
  {
    if m.None? then None else Some(m.value)
  }

  /** A `0x`/`0X` prefix selects base 16; otherwise the longest run of decimal digits. */
  function ParseMagnitude(u: string): Option<nat>
  {
    if |u| >= 2 && u[0] == '0' && (u[1] == 'x' || u[1] == 'X') then
      var d := HexPrefix(u[2..]);
      HexPrefixSpec(u[2..]);
      if d == [] then None else Some(HexValue(d))
    else
      var d := DigitPrefix(u);
      DigitPrefixSpec(u);
      if d == [] then None else Some(DecValue(d))
  }

  /** A non-empty run of decimal digits parses to the number it denotes. */
  lemma ParseIntOfDigits(s: string)
    requires AllDigits(s) && s != []
    ensures ParseInt(s) == Some(DecValue(s))
  {
    assert TrimStart(s) == s;
    DigitPrefixSpec(s);
  }

  lemma ParseIntOfNatToString(n: nat)
    ensures ParseInt(NatToString(n)) == Some(n)
  {
    DecValueOfNatToString(n);
    ParseIntOfDigits(NatToString(n));
  }

  /** `s.replace(/from/g, to)` for single characters. */
  function ReplaceChar(s: string, from: char, to: char): (r: string)
    ensures |r| == |s|
    ensures forall i :: 0 <= i < |s| ==> r[i] == if s[i] == from then to else s[i]
  {
    seq(|s|, i requires 0 <= i < |s| => if s[i] == from then to else s[i])
  }
}
