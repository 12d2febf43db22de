/**
 * The few `String` methods the front end uses. Case mapping covers the ASCII
 * letters only; `trim` removes exactly the characters ECMAScript calls
 * WhiteSpace and LineTerminator.
 */
module JsString {

  function LowerChar(c: char): char {
    if 'A' <= c <= 'Z' then (c as int + 32) as char else c
  }

  function UpperChar(c: char): char {
    if 'a' <= c <= 'z' then (c as int - 32) as char else c
  }

  /** `s.toLowerCase()`. */
  function ToLower(s: string): (r: string)
    ensures |r| == |s|
  {
    seq(|s|, i requires 0 <= i < |s| => LowerChar(s[i]))
  }

  /** Lower-casing a lower-cased string changes nothing. */
  lemma ToLowerIdempotent(s: string)
    ensures ToLower(ToLower(s)) == ToLower(s)
  {
  }

  /** `s.toUpperCase()`. */
  function ToUpper(s: string): (r: string)
    ensures |r| == |s|
  {
    seq(|s|, i requires 0 <= i < |s| => UpperChar(s[i]))
  }

  predicate StartsWith(s: string, prefix: string) {
    |prefix| <= |s| && s[..|prefix|] == prefix
  }

  /** `s.includes(sub)`: `sub` occurs in `s` at some position. */
  predicate Includes(s: string, sub: string)
    decreases |s|
  {
    StartsWith(s, sub) || (|s| > 0 && Includes(s[1..], sub))
  }

  /** The characters `String.prototype.trim` removes. */
  predicate IsJsSpace(c: char) {
    var k := c as int;
    k == 0x09 || k == 0x0A || k == 0x0B || k == 0x0C || k == 0x0D || k == 0x20
    || k == 0xA0 || k == 0x1680 || (0x2000 <= k <= 0x200A) || k == 0x2028 || k == 0x2029
    || k == 0x202F || k == 0x205F || k == 0x3000 || k == 0xFEFF
  }

  function TrimStart(s: string): string
    decreases |s|
  {
    if |s| > 0 && IsJsSpace(s[0]) then TrimStart(s[1..]) else s
  }

  function TrimEnd(s: string): string
    decreases |s|
  {
    if |s| > 0 && IsJsSpace(s[|s| - 1]) then TrimEnd(s[..|s| - 1]) else s
  }

  /** `s.trim()`. */
  function Trim(s: string): string {
    TrimEnd(TrimStart(s))
  }

  /** `s.split(sep)` for a one-character separator; empty pieces are kept. */
  function Split(s: string, sep: char): (r: seq<string>)
    ensures |r| >= 1
    decreases |s|
  {
    if |s| == 0 then [""]
    else if s[0] == sep then [""] + Split(s[1..], sep)
    else
      var t := Split(s[1..], sep);
      [[s[0]] + t[0]] + t[1..]
  }

  /** `parts.join(sep)`. */
  function Join(parts: seq<string>, sep: string): string
    decreases |parts|
  {
    if |parts| == 0 then ""
    else if |parts| == 1 then parts[0]
    else parts[0] + sep + Join(parts[1..], sep)
  }

  function DigitChar(d: nat): char
    requires d < 10
  {
    ('0' as int + d) as char
  }

  /** `String(n)` for a natural number: its decimal digits. */
  function NatText(n: nat): (r: string)
    ensures |r| >= 1
    decreases n
  {
    if n < 10 then [DigitChar(n)] else NatText(n / 10) + [DigitChar(n % 10)]
  }

  /** `sub` occurs in `s` starting at index `i`. */
  predicate OccursAt(s: string, sub: string, i: int) {
    0 <= i && i + |sub| <= |s| && s[i..i + |sub|] == sub
  }

  /** `includes` finds `sub` exactly when it occurs at some index. */
  lemma {:induction false} IncludesAt(s: string, sub: string)
    ensures Includes(s, sub) <==> exists i :: OccursAt(s, sub, i)
    decreases |s|
  {
    if StartsWith(s, sub) {
      assert OccursAt(s, sub, 0);
    }
    if |s| > 0 {
      IncludesAt(s[1..], sub);
      if exists i :: OccursAt(s, sub, i) {
        var i :| OccursAt(s, sub, i);
        if i > 0 { assert OccursAt(s[1..], sub, i - 1) by { assert s[1..][i - 1..i - 1 + |sub|] == s[i..i + |sub|]; } }
        else { assert StartsWith(s, sub); }
      }
      if Includes(s[1..], sub) {
        var i :| OccursAt(s[1..], sub, i);
        assert OccursAt(s, sub, i + 1) by { assert s[1..][i..i + |sub|] == s[i + 1..i + 1 + |sub|]; }
      }
    } else {
      if exists i :: OccursAt(s, sub, i) {
        var i :| OccursAt(s, sub, i);
        assert |sub| == 0 && s[..0] == sub;
      }
    }
  }

  /** Including a one-character string is containing that character. */
  lemma IncludesChar(s: string, c: char)
    ensures Includes(s, [c]) <==> c in s
  {
    IncludesAt(s, [c]);
    if c in s {
      var i :| 0 <= i < |s| && s[i] == c;
      assert OccursAt(s, [c], i);
    }
    if Includes(s, [c]) {
      var i :| OccursAt(s, [c], i);
      assert s[i] == s[i..i + 1][0];
    }
  }

  /** Every string includes the empty string. */
  lemma IncludesEmpty(s: string)
    ensures Includes(s, "")
  {
    assert StartsWith(s, "");
  }

  /** `trimStart` removes a prefix of spaces and leaves a string that starts with no space. */
  lemma {:induction false} TrimStartSpec(s: string)
    ensures exists i :: 0 <= i <= |s| && TrimStart(s) == s[i..] && forall j :: 0 <= j < i ==> IsJsSpace(s[j])
    ensures |TrimStart(s)| > 0 ==> !IsJsSpace(TrimStart(s)[0])
    decreases |s|
  {
    if |s| > 0 && IsJsSpace(s[0]) {
      TrimStartSpec(s[1..]);
      var i :| 0 <= i <= |s| - 1 && TrimStart(s[1..]) == s[1..][i..] && forall j :: 0 <= j < i ==> IsJsSpace(s[1..][j]);
      assert s[1..][i..] == s[i + 1..];
      assert forall j :: 0 <= j < i + 1 ==> IsJsSpace(s[j]) by {
        forall j | 0 < j < i + 1 ensures IsJsSpace(s[j]) { assert s[j] == s[1..][j - 1]; }
      }
    } else {
      assert TrimStart(s) == s[0..];
    }
  }

  /** `trimEnd` removes a suffix of spaces and leaves a string that ends with no space. */
  lemma {:induction false} TrimEndSpec(s: string)
    ensures exists i :: 0 <= i <= |s| && TrimEnd(s) == s[..i] && forall j :: i <= j < |s| ==> IsJsSpace(s[j])
    ensures |TrimEnd(s)| > 0 ==> !IsJsSpace(TrimEnd(s)[|TrimEnd(s)| - 1])
    decreases |s|
  {
    if |s| > 0 && IsJsSpace(s[|s| - 1]) {
      var t := s[..|s| - 1];
      TrimEndSpec(t);
      var i :| 0 <= i <= |t| && TrimEnd(t) == t[..i] && forall j :: i <= j < |t| ==> IsJsSpace(t[j]);
      assert t[..i] == s[..i];
      assert forall j :: i <= j < |s| ==> IsJsSpace(s[j]) by {
        forall j | i <= j < |s| ensures IsJsSpace(s[j]) { if j < |t| { assert s[j] == t[j]; } }
      }
    } else {
      assert TrimEnd(s) == s[..|s|];
    }
  }

  /** Trimming twice is trimming once. */
  lemma TrimIdempotent(s: string)
    ensures Trim(Trim(s)) == Trim(s)
  {
    TrimStartSpec(s);
    TrimEndSpec(TrimStart(s));
    var t := Trim(s);
    if |t| > 0 {
      var i :| 0 <= i <= |TrimStart(s)| && t == TrimStart(s)[..i] && forall j :: i <= j < |TrimStart(s)| ==> IsJsSpace(TrimStart(s)[j]);
      assert t[0] == TrimStart(s)[0];
      assert TrimStart(t) == t;
      assert TrimEnd(t) == t;
    }
  }

  /** A nonblank prefix keeps its place when text is appended. */
  lemma {:induction false} TrimStartAppend(s: string, t: string)
    ensures TrimStart(s) != "" ==> TrimStart(s + t) == TrimStart(s) + t
    ensures TrimStart(s) == "" ==> TrimStart(s + t) == TrimStart(t)
    decreases |s|
  {
    if |s| == 0 {
      assert s + t == t;
    } else {
      assert (s + t)[0] == s[0];
      if IsJsSpace(s[0]) {
        assert (s + t)[1..] == s[1..] + t;
        TrimStartAppend(s[1..], t);
      }
    }
  }

  /** A trailing space is trimmed away. */
  lemma TrimEndAppendSpace(s: string)
    ensures TrimEnd(s + " ") == TrimEnd(s)
  {
    assert (s + " ")[..|s|] == s;
  }

  /** Splitting and joining again with the same separator gives the string back. */
  lemma {:induction false} SplitJoin(s: string, sep: char)
    ensures Join(Split(s, sep), [sep]) == s
    decreases |s|
  {
    if |s| > 0 {
      SplitJoin(s[1..], sep);
      var t := Split(s[1..], sep);
      if s[0] == sep {
        assert Split(s, sep) == [""] + t;
        assert ([""] + t)[1..] == t;
        assert s == [sep] + s[1..];
      } else {
        assert Split(s, sep) == [[s[0]] + t[0]] + t[1..];
        JoinExtendFirst([s[0]], t, [sep]);
        assert s == [s[0]] + s[1..];
      }
    }
  }

  /** Prefixing the first piece prefixes the joined string. */
  lemma JoinExtendFirst(a: string, parts: seq<string>, sep: string)
    requires |parts| >= 1
    ensures Join([a + parts[0]] + parts[1..], sep) == a + Join(parts, sep)
  {
    var q := [a + parts[0]] + parts[1..];
    if |parts| > 1 {
      assert q[1..] == parts[1..];
    }
  }

  /** No piece of a split holds the separator. */
  lemma {:induction false} SplitPiecesNoSep(s: string, sep: char)
    ensures forall k :: 0 <= k < |Split(s, sep)| ==> sep !in Split(s, sep)[k]
    decreases |s|
  {
    if |s| > 0 {
      SplitPiecesNoSep(s[1..], sep);
      var t := Split(s[1..], sep);
      var r := Split(s, sep);
      if s[0] == sep {
        assert r == [""] + t;
        forall k | 0 <= k < |r| ensures sep !in r[k] {
          if k > 0 { assert r[k] == t[k - 1]; }
        }
      } else {
        assert r == [[s[0]] + t[0]] + t[1..];
        forall k | 0 <= k < |r| ensures sep !in r[k] {
          if k > 0 { assert r[k] == t[k]; }
        }
      }
    }
  }
}
