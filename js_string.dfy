/** The two JavaScript string built-ins the add form relies on:
    `String.prototype.trim` and `String.prototype.endsWith`. */
module JsString {

  /** Whether `trim` strips `c`: ECMAScript's WhiteSpace (tab, vertical
      tab, form feed, space, no-break space, byte order mark and the other
      Unicode space separators: ogham space mark, the spaces from en quad to
      hair space, narrow no-break space, medium mathematical space,
      ideographic space) and LineTerminator (LF, CR, line separator,
      paragraph separator). Every such code point is a single UTF-16 code
      unit. */
  predicate IsWhitespace(c: char): (b: bool)
    ensures c == ' ' || c == '\t' || c == '\n' || c == '\r' ==> b
    ensures b ==> c as int < 0x10000
  {
    var n := c as int;
    (0x09 <= n <= 0x0D) || n == 0x20
    || (0xA0 <= n && (n == 0xA0 || n == 0x1680 || (0x2000 <= n <= 0x200A)
                      || n == 0x2028 || n == 0x2029 || n == 0x202F || n == 0x205F
                      || n == 0x3000 || n == 0xFEFF))
  }

  predicate AllWhitespace(s: string) {
    forall i :: 0 <= i < |s| ==> IsWhitespace(s[i])
  }

  /** `s` with its leading whitespace removed: the suffix of `s` that starts
      at its first non-whitespace character. */
  function TrimStart(s: string): (r: string)
    ensures |r| <= |s| && r == s[|s| - |r|..]
    ensures forall i :: 0 <= i < |s| - |r| ==> IsWhitespace(s[i])
    ensures r != [] ==> !IsWhitespace(r[0])
  {
    if s != [] && IsWhitespace(s[0]) then TrimStart(s[1..]) else s
  }

  /** `s` with its trailing whitespace removed: the prefix of `s` that ends
      at its last non-whitespace character. */
  function TrimEnd(s: string): (r: string)
    ensures |r| <= |s| && r == s[..|r|]
    ensures forall i :: |r| <= i < |s| ==> IsWhitespace(s[i])
    ensures r != [] ==> !IsWhitespace(r[|r| - 1])
  {
    if s != [] && IsWhitespace(s[|s| - 1]) then TrimEnd(s[..|s| - 1]) else s
  }

  /** `s.trim()`: leading and trailing whitespace removed. The result is
      empty exactly when `s` is all whitespace, and otherwise begins and ends
      with a character that is not whitespace. */
  function Trim(s: string): (r: string)
    ensures |r| <= |s|
    ensures r == [] <==> AllWhitespace(s)
    ensures r != [] ==> !IsWhitespace(r[0]) && !IsWhitespace(r[|r| - 1])
  {
    var p := TrimStart(s);
    var r := TrimEnd(p);
    var a := |s| - |p|;
    WhitespaceTailCarries(s, p, r);
    assert AllWhitespace(s) ==> p == [] by {
      if p != [] {
        assert p[0] == s[a];
      }
    }
    r
  }

  /** `s.trim()` is the stretch of `s` between the whitespace `TrimStart`
      drops and a run of whitespace at the end. */
  lemma {:induction false} TrimIsInfix(s: string)
    ensures TrimOffset(s) + |Trim(s)| <= |s|
    ensures Trim(s) == s[TrimOffset(s)..TrimOffset(s) + |Trim(s)|]
    ensures forall i :: TrimOffset(s) + |Trim(s)| <= i < |s| ==> IsWhitespace(s[i])
  {
    var p := TrimStart(s);
    var r := TrimEnd(p);
    WhitespaceTailCarries(s, p, r);
  }

  /** Where `s.trim()` starts in `s`: all of `s` before it is whitespace. */
  function TrimOffset(s: string): (a: nat)
    ensures a <= |s| && forall i :: 0 <= i < a ==> IsWhitespace(s[i])
  {
    |s| - |TrimStart(s)|
  }

  /** When `r` is a prefix of the suffix `p` of `s` and only whitespace
      follows `r` in `p`, then `r` sits in `s` where `p` starts and only
      whitespace follows it in `s`. */
  lemma WhitespaceTailCarries(s: string, p: string, r: string)
    requires |p| <= |s| && p == s[|s| - |p|..]
    requires |r| <= |p| && r == p[..|r|]
    requires forall i :: |r| <= i < |p| ==> IsWhitespace(p[i])
    ensures var a := |s| - |p|;
            r == s[a..a + |r|] && forall i :: a + |r| <= i < |s| ==> IsWhitespace(s[i])
  {
    var a := |s| - |p|;
    forall i | a + |r| <= i < |s| ensures IsWhitespace(s[i]) {
      assert s[i] == p[i - a];
    }
  }

  /** `s.endsWith(suffix)`: `s` splits into some prefix followed by
      `suffix`. */
  predicate EndsWith(s: string, suffix: string): (b: bool)
    ensures b ==> |suffix| <= |s| && s == s[..|s| - |suffix|] + suffix
  {
    |suffix| <= |s| && s[|s| - |suffix|..] == suffix
  }

  /** Conversely, any string followed by `suffix` ends with `suffix`. */
  lemma EndsWithAppend(p: string, suffix: string)
    ensures EndsWith(p + suffix, suffix)
  {
    assert (p + suffix)[|p|..] == suffix;
  }

  /** Trimming twice is trimming once. */
  lemma {:induction false} TrimIdempotent(s: string)
    ensures Trim(Trim(s)) == Trim(s)
  {
    var r := Trim(s);
    if r != [] {
      assert TrimStart(r) == r;
      assert TrimEnd(r) == r;
    }
  }

  /** Trimming keeps every suffix that starts and ends with a character that
      is not whitespace; in particular it cannot strip a `.git` suffix. */
  lemma {:induction false} TrimKeepsSuffix(s: string, t: string)
    requires EndsWith(s, t)
    requires t != [] && !IsWhitespace(t[0]) && !IsWhitespace(t[|t| - 1])
    ensures EndsWith(Trim(s), t)
  {
    var p := TrimStart(s);
    var k := |s| - |t|;
    assert s[k] == t[0];
    assert |s| - |p| <= k;
    assert p[|p| - |t|..] == s[k..];
    assert p[|p| - 1] == t[|t| - 1];
    assert TrimEnd(p) == p;
  }
}
