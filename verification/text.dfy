/** The string primitives the form validator relies on: the JavaScript notion
    of whitespace, `String.prototype.trim`, and the `length` of a string, which
    counts UTF-16 code units rather than characters. */
module Text {

  /** The code points ECMAScript calls WhiteSpace or LineTerminator: the set
      `trim` strips and the regular-expression class `\s` matches.
      WhiteSpace is TAB, VT, FF, ZWNBSP and every space separator (category Zs);
      LineTerminator is LF, CR, LINE SEPARATOR and PARAGRAPH SEPARATOR. */
  predicate IsWhitespace(c: char) {
    var n := c as int;
    || n == 0x09 || n == 0x0A || n == 0x0B || n == 0x0C || n == 0x0D
    || n == 0x20 || n == 0xA0 || n == 0x1680
    || (0x2000 <= n <= 0x200A)
    || n == 0x2028 || n == 0x2029 || n == 0x202F || n == 0x205F
    || n == 0x3000 || n == 0xFEFF
  }

  /** Empty, or whitespace only. */
  predicate Blank(s: string) {
    forall i :: 0 <= i < |s| ==> IsWhitespace(s[i])
  }

  /** The index of the first non-whitespace character at or after `i`
      (`|s|` if there is none). */
  function SkipLeading(s: string, i: nat): (k: nat)
    requires i <= |s|
    ensures i <= k <= |s|
    ensures forall j :: i <= j < k ==> IsWhitespace(s[j])
    ensures k < |s| ==> !IsWhitespace(s[k])
    decreases |s| - i
  {
    if i < |s| && IsWhitespace(s[i]) then SkipLeading(s, i + 1) else i
  }

  /** The end of `s[lo..j]` once its trailing whitespace is dropped. */
  function SkipTrailing(s: string, lo: nat, j: nat): (k: nat)
    requires lo <= j <= |s|
    ensures lo <= k <= j
    ensures forall m :: k <= m < j ==> IsWhitespace(s[m])
    ensures k > lo ==> !IsWhitespace(s[k - 1])
    decreases j
  {
    if j > lo && IsWhitespace(s[j - 1]) then SkipTrailing(s, lo, j - 1) else j
  }

  /** `String.prototype.trim`: `s` without its surrounding whitespace. The result
      neither starts nor ends with whitespace, and it is empty exactly when `s`
      is blank; `TrimIsInfix` shows that only a blank prefix and a blank suffix
      are removed. */
  function Trim(s: string): (r: string)
    ensures |r| <= |s|
    ensures r != [] ==> !IsWhitespace(r[0]) && !IsWhitespace(r[|r| - 1])
    ensures r == [] <==> Blank(s)
  {
    var lo := SkipLeading(s, 0);
    var hi := SkipTrailing(s, lo, |s|);
    assert lo == hi ==> lo == |s|;
    s[lo..hi]
  }

  /** `Trim(s)` is `s` minus a blank prefix and a blank suffix. */
  lemma TrimIsInfix(s: string)
    ensures var r := Trim(s);
      exists i :: 0 <= i <= |s| - |r| && r == s[i..i + |r|] && Blank(s[..i]) && Blank(s[i + |r|..])
  {
    var lo := SkipLeading(s, 0);
    var hi := SkipTrailing(s, lo, |s|);
    assert Trim(s) == s[lo..hi];
    assert Blank(s[..lo]) by {
      forall j | 0 <= j < lo ensures IsWhitespace(s[..lo][j]) {
        assert s[..lo][j] == s[j];
      }
    }
    assert Blank(s[hi..]) by {
      forall m | 0 <= m < |s| - hi ensures IsWhitespace(s[hi..][m]) {
        assert s[hi..][m] == s[hi + m];
      }
    }
  }

  /** A string that neither starts nor ends with whitespace is its own trim. */
  lemma TrimOfTight(s: string)
    requires s != [] && !IsWhitespace(s[0]) && !IsWhitespace(s[|s| - 1])
    ensures Trim(s) == s
  {
    assert SkipLeading(s, 0) == 0;
    assert SkipTrailing(s, 0, |s|) == |s|;
    assert s[0..|s|] == s;
  }

  /** One space on each side of a tight string is trimmed away. */
  lemma TrimOfPadded(s: string)
    requires s != [] && !IsWhitespace(s[0]) && !IsWhitespace(s[|s| - 1])
    ensures Trim(" " + s + " ") == s
  {
    var p := " " + s + " ";
    assert SkipLeading(p, 1) == 1;
    assert SkipLeading(p, 0) == 1;
    assert SkipTrailing(p, 1, |s| + 1) == |s| + 1;
    assert SkipTrailing(p, 1, |p|) == |s| + 1;
    assert p[1..|s| + 1] == s;
  }

  /** Trimming a trimmed string changes nothing. */
  lemma TrimIdempotent(s: string)
    ensures Trim(Trim(s)) == Trim(s)
  {
    var t := Trim(s);
    if t != [] {
      TrimOfTight(t);
    }
  }

  /** A code point JavaScript stores as one UTF-16 code unit. */
  predicate InBasicPlane(c: char) {
    (c as int) < 0x1_0000
  }

  /** The JavaScript `length` of `s`: one code unit per basic-plane character
      and a surrogate pair (two units) for every other one. */
  function Utf16Length(s: string): (n: nat)
    ensures |s| <= n <= 2 * |s|
    ensures n == |s| <==> forall i :: 0 <= i < |s| ==> InBasicPlane(s[i])
  {
    if s == [] then 0
    else (if InBasicPlane(s[0]) then 1 else 2) + Utf16Length(s[1..])
  }

  /** A non-empty string is shorter than two code units exactly when it is a
      single basic-plane character; one supplementary character (an emoji,
      say) already has length 2. */
  lemma {:induction false} ShortIffSingleBasic(t: string)
    requires t != []
    ensures Utf16Length(t) < 2 <==> |t| == 1 && InBasicPlane(t[0])
  {
    if |t| == 1 {
      assert t[1..] == [];
    }
  }
}
