/**
 * The string operations the overlay relies on: `trim`, `toLowerCase`,
 * `startsWith`, `includes`, and JavaScript's `a || b || c` choice of the
 * first non-empty string.
 */
module Text {

  /** The characters removed by `String.prototype.trim`: WhiteSpace and
      LineTerminator of ECMAScript (the Zs category listed out). */
  predicate IsWhiteSpace(c: char) {
    c == '\t' || c == '\n' || c == '\U{B}' || c == '\U{C}' || c == '\r' || c == ' ' ||
    c == '\U{A0}' || c == '\U{1680}' || ('\U{2000}' <= c <= '\U{200A}') ||
    c == '\U{2028}' || c == '\U{2029}' || c == '\U{202F}' || c == '\U{205F}' ||
    c == '\U{3000}' || c == '\U{FEFF}'
  }

  /** Drops leading white space. */
  function TrimStart(s: string): (r: string)
    ensures |r| <= |s|
    ensures r == [] || !IsWhiteSpace(r[0])
    decreases |s|
  {
    if s != [] && IsWhiteSpace(s[0]) then TrimStart(s[1..]) else s
  }

  /** Drops trailing white space. */
  function TrimEnd(s: string): (r: string)
    ensures |r| <= |s|
    ensures r == [] || !IsWhiteSpace(r[|r| - 1])
    decreases |s|
  {
    if s != [] && IsWhiteSpace(s[|s| - 1]) then TrimEnd(s[..|s| - 1]) else s
  }

  /** `s.trim()`. */
  function Trim(s: string): (r: string)
    ensures r == [] || (!IsWhiteSpace(r[0]) && !IsWhiteSpace(r[|r| - 1]))
  {
    var t := TrimStart(s);
    TrimStartIsSuffix(s);
    TrimEndIsPrefix(t);
    TrimEnd(t)
  }

  /** What `TrimStart` removes is a run of white space at the front. */
  lemma {:induction false} TrimStartIsSuffix(s: string)
    ensures TrimStart(s) == s[|s| - |TrimStart(s)|..]
    ensures forall k :: 0 <= k < |s| - |TrimStart(s)| ==> IsWhiteSpace(s[k])
    decreases |s|
  {
    if s != [] && IsWhiteSpace(s[0]) {
      TrimStartIsSuffix(s[1..]);
      forall k | 1 <= k < |s| - |TrimStart(s)| ensures IsWhiteSpace(s[k]) {
        assert s[k] == s[1..][k - 1];
      }
    }
  }

  /** What `TrimEnd` removes is a run of white space at the back. */
  lemma {:induction false} TrimEndIsPrefix(s: string)
    ensures TrimEnd(s) == s[..|TrimEnd(s)|]
    ensures forall k :: |TrimEnd(s)| <= k < |s| ==> IsWhiteSpace(s[k])
    decreases |s|
  {
    if s != [] && IsWhiteSpace(s[|s| - 1]) {
      TrimEndIsPrefix(s[..|s| - 1]);
      forall k | |TrimEnd(s)| <= k < |s| - 1 ensures IsWhiteSpace(s[k]) {
        assert s[k] == s[..|s| - 1][k];
      }
    }
  }

  /** `trim` keeps the middle of `s` and removes only white space around it. */
  lemma TrimIsMiddle(s: string)
    ensures exists i :: 0 <= i <= |s| - |Trim(s)| && IsPrefix(Trim(s), s[i..]) &&
                        (forall k :: 0 <= k < i ==> IsWhiteSpace(s[k])) &&
                        (forall k :: i + |Trim(s)| <= k < |s| ==> IsWhiteSpace(s[k]))
  {
    var t := TrimStart(s);
    var r := Trim(s);
    TrimStartIsSuffix(s);
    TrimEndIsPrefix(t);
    var i := |s| - |t|;
    assert t == s[i..];
    assert IsPrefix(r, s[i..]);
    assert forall k :: 0 <= k < i ==> IsWhiteSpace(s[k]);
    assert forall k :: i + |r| <= k < |s| ==> IsWhiteSpace(s[k]) by {
      forall k | i + |r| <= k < |s| ensures IsWhiteSpace(s[k]) {
        assert s[k] == t[k - i];
      }
    }
  }

  /** ASCII case folding of one character (`toLowerCase` restricted to A-Z). */
  function LowerChar(c: char): char {
    if 'A' <= c <= 'Z' then (c as int - 'A' as int + 'a' as int) as char else c
  }

  /** `s.toLowerCase()`, character by character. */
  function Lower(s: string): string {
    seq(|s|, i requires 0 <= i < |s| => LowerChar(s[i]))
  }

  /** `s.startsWith(p)`. */
  predicate IsPrefix(p: string, s: string) {
    |p| <= |s| && s[..|p|] == p
  }

  /** `t.includes(q)`: some suffix of `t` starts with `q`. */
  predicate Contains(t: string, q: string)
    decreases |t|
  {
    IsPrefix(q, t) || (t != [] && Contains(t[1..], q))
  }

  /** JavaScript's `a || b || ...` over strings: the first non-empty one, or "". */
  function FirstNonEmpty(options: seq<string>): (r: string)
    ensures r == [] <==> forall i :: 0 <= i < |options| ==> options[i] == []
    ensures r != [] ==> exists i :: 0 <= i < |options| && options[i] == r &&
                                    forall j :: 0 <= j < i ==> options[j] == []
  {
    if options == [] then []
    else if options[0] != [] then options[0]
    else
      var r := FirstNonEmpty(options[1..]);
      assert r != [] ==> exists i :: 1 <= i < |options| && options[i] == r &&
                                     forall j :: 0 <= j < i ==> options[j] == [] by {
        if r != [] {
          var i :| 0 <= i < |options[1..]| && options[1..][i] == r &&
                   forall j :: 0 <= j < i ==> options[1..][j] == [];
          assert options[i + 1] == r;
          assert forall j :: 0 <= j < i + 1 ==> options[j] == [] by {
            forall j | 0 <= j < i + 1 ensures options[j] == [] {
              if j > 0 { assert options[j] == options[1..][j - 1]; }
            }
          }
        }
      }
      r
  }

  /** Lower-casing never introduces or removes white space. */
  lemma LowerKeepsWhiteSpace(c: char)
    ensures IsWhiteSpace(LowerChar(c)) == IsWhiteSpace(c)
  {
  }

  /** Trimming and lower-casing commute, so `trim().toLowerCase()` equals
      `toLowerCase().trim()`. */
  lemma {:induction false} TrimLowerCommute(s: string)
    ensures Lower(Trim(s)) == Trim(Lower(s))
  {
    TrimStartLower(s);
    TrimEndLower(TrimStart(s));
  }

  lemma {:induction false} TrimStartLower(s: string)
    ensures Lower(TrimStart(s)) == TrimStart(Lower(s))
    decreases |s|
  {
    if s != [] {
      LowerKeepsWhiteSpace(s[0]);
      assert Lower(s)[1..] == Lower(s[1..]);
      if IsWhiteSpace(s[0]) { TrimStartLower(s[1..]); }
    }
  }

  lemma {:induction false} TrimEndLower(s: string)
    ensures Lower(TrimEnd(s)) == TrimEnd(Lower(s))
    decreases |s|
  {
    if s != [] {
      LowerKeepsWhiteSpace(s[|s| - 1]);
      assert Lower(s)[..|s| - 1] == Lower(s[..|s| - 1]);
      if IsWhiteSpace(s[|s| - 1]) { TrimEndLower(s[..|s| - 1]); }
    }
  }

  /** Prefixes are preserved by lower-casing. */
  lemma LowerPrefix(p: string, s: string)
    requires IsPrefix(p, s)
    ensures IsPrefix(Lower(p), Lower(s))
  {
    assert Lower(s)[..|p|] == Lower(p);
  }

  /** Appending to a string can only extend its trimmed form. */
  lemma {:induction false} TrimAppend(s: string, extra: string)
    ensures IsPrefix(Trim(s), Trim(s + extra))
  {
    if Trim(s) != [] {
      TrimStartAppend(s, extra);
      TrimEndAppend(TrimStart(s), extra);
    }
  }

  lemma {:induction false} TrimStartAppend(s: string, extra: string)
    requires TrimStart(s) != []
    ensures TrimStart(s + extra) == TrimStart(s) + extra
    decreases |s|
  {
    assert (s + extra)[0] == s[0];
    if IsWhiteSpace(s[0]) {
      assert (s + extra)[1..] == s[1..] + extra;
      TrimStartAppend(s[1..], extra);
    }
  }

  lemma {:induction false} TrimEndAppend(s: string, extra: string)
    ensures IsPrefix(TrimEnd(s), TrimEnd(s + extra))
    decreases |extra|
  {
    if extra == [] {
      assert s + extra == s;
    } else if IsWhiteSpace(extra[|extra| - 1]) {
      var shorter := extra[..|extra| - 1];
      assert (s + extra)[..|s + extra| - 1] == s + shorter;
      TrimEndAppend(s, shorter);
    } else {
      assert TrimEnd(s + extra) == s + extra;
      TrimEndIsPrefix(s);
    }
  }

  /** `includes` is the existence of an occurrence at some offset. */
  lemma {:induction false} ContainsIffOccurs(t: string, q: string)
    ensures Contains(t, q) <==> exists i :: 0 <= i <= |t| && IsPrefix(q, t[i..])
    decreases |t|
  {
    assert t[0..] == t;
    if t != [] {
      ContainsIffOccurs(t[1..], q);
      if exists i :: 0 <= i <= |t| && IsPrefix(q, t[i..]) {
        var i :| 0 <= i <= |t| && IsPrefix(q, t[i..]);
        if i > 0 { assert t[1..][i - 1..] == t[i..]; }
      }
      if Contains(t[1..], q) {
        var i :| 0 <= i <= |t[1..]| && IsPrefix(q, t[1..][i..]);
        assert t[1..][i..] == t[i + 1..];
      }
    }
  }

  /** A text containing `q + more` contains `q`. */
  lemma {:induction false} ContainsPrefixOfQuery(t: string, q: string, q': string)
    requires IsPrefix(q, q')
    requires Contains(t, q')
    ensures Contains(t, q)
    decreases |t|
  {
    if IsPrefix(q', t) {
      assert t[..|q|] == q'[..|q|];
    } else {
      ContainsPrefixOfQuery(t[1..], q, q');
    }
  }
}
