/**
 String primitives the login form relies on, as JavaScript defines them:
 the whitespace set shared by `String.prototype.trim` and the regular
 expression class `\s`, `trim` itself, `length` in UTF-16 code units, and
 "some character is in a class" / "every character is in a class", which is
 what an unanchored one-class regular expression and an anchored `[...]+`
 test for.

 A string is a `seq<char>` of Unicode scalar values. JavaScript strings are
 sequences of UTF-16 code units; the two views differ only for characters
 outside the Basic Multilingual Plane, which JavaScript stores as a surrogate
 pair. A surrogate code unit is never whitespace, '@', an ASCII letter or
 digit, or a special character, and it is in `[^\s@]` just as the character
 it encodes is plain, so class tests and `trim` agree on both views and only
 `length` needs the conversion below. A string holding an unpaired
 surrogate has no `seq<char>` counterpart.
 */
module Text {

  /** ECMAScript WhiteSpace and LineTerminator code points: the set `trim`
      removes and `\s` matches. */
  predicate IsWs(c: char) {
    || c == '\t' || c == '\n' || c == '\U{000B}' || c == '\U{000C}' || c == '\r'
    || c == ' ' || c == '\U{00A0}' || c == '\U{1680}'
    || ('\U{2000}' <= c <= '\U{200A}')
    || c == '\U{2028}' || c == '\U{2029}' || c == '\U{202F}' || c == '\U{205F}'
    || c == '\U{3000}' || c == '\U{FEFF}'
  }

  /** Some character of `s` is in the class `cls`. */
  ghost predicate Occurs(s: seq<char>, cls: char -> bool) {
    exists i :: 0 <= i < |s| && cls(s[i])
  }

  /** Every character of `s` is in the class `cls`. */
  ghost predicate Every(s: seq<char>, cls: char -> bool) {
    forall i :: 0 <= i < |s| ==> cls(s[i])
  }

  lemma EveryConcat(a: seq<char>, b: seq<char>, cls: char -> bool)
    ensures Every(a + b, cls) <==> Every(a, cls) && Every(b, cls)
  {
    if Every(a, cls) && Every(b, cls) {
      forall i | 0 <= i < |a + b| ensures cls((a + b)[i]) {
        if i >= |a| {
          assert (a + b)[i] == b[i - |a|];
        }
      }
    }
    if Every(a + b, cls) {
      forall i | 0 <= i < |a| ensures cls(a[i]) {
        assert a[i] == (a + b)[i];
      }
      forall i | 0 <= i < |b| ensures cls(b[i]) {
        assert b[i] == (a + b)[|a| + i];
      }
    }
  }

  /** A string is blank when `trim` leaves nothing of it. */
  ghost predicate IsBlank(s: seq<char>) {
    Every(s, IsWs)
  }

  /** Left-to-right search for a character of class `cls`. */
  function Contains(s: seq<char>, cls: char -> bool): (b: bool)
    ensures b <==> Occurs(s, cls)
  {
    if s == [] then false
    else if cls(s[0]) then true
    else
      var b := Contains(s[1..], cls);
      assert Occurs(s[1..], cls) ==> Occurs(s, cls) by {
        if Occurs(s[1..], cls) {
          var i :| 0 <= i < |s[1..]| && cls(s[1..][i]);
          assert cls(s[i + 1]);
        }
      }
      assert Occurs(s, cls) ==> Occurs(s[1..], cls) by {
        if Occurs(s, cls) {
          var i :| 0 <= i < |s| && cls(s[i]);
          assert i != 0;
          assert cls(s[1..][i - 1]);
        }
      }
      b
  }

  /** Left-to-right check that no character falls outside class `cls`. */
  function All(s: seq<char>, cls: char -> bool): (b: bool)
    ensures b <==> Every(s, cls)
  {
    if s == [] then true
    else if !cls(s[0]) then false
    else
      var b := All(s[1..], cls);
      assert Every(s, cls) <==> Every(s[1..], cls) by {
        if Every(s[1..], cls) {
          forall i | 0 < i < |s| ensures cls(s[i]) {
            assert s[i] == s[1..][i - 1];
          }
        }
      }
      b
  }

  /** Position of the first `c` in `s`, or `|s|` when there is none. */
  function FirstIndexOf(s: seq<char>, c: char): (k: nat)
    ensures k <= |s|
    ensures c !in s[..k]
    ensures k < |s| ==> s[k] == c
  {
    if s == [] then 0
    else if s[0] == c then 0
    else
      var k := FirstIndexOf(s[1..], c);
      assert s[..k + 1] == [s[0]] + s[1..][..k];
      1 + k
  }

  /** What `String.prototype.trimStart` keeps: the suffix of `s` after its
      leading whitespace. */
  function TrimStart(s: seq<char>): (r: seq<char>)
    ensures |r| <= |s| && r == s[|s| - |r|..]
    ensures IsBlank(s[..|s| - |r|])
    ensures r == [] || !IsWs(r[0])
  {
    if s != [] && IsWs(s[0]) then
      var r := TrimStart(s[1..]);
      assert s[..|s| - |r|] == [s[0]] + s[1..][..|s[1..]| - |r|];
      r
    else s
  }

  /** What `String.prototype.trimEnd` keeps: the prefix of `s` before its
      trailing whitespace. */
  function TrimEnd(s: seq<char>): (r: seq<char>)
    ensures |r| <= |s| && r == s[..|r|]
    ensures IsBlank(s[|r|..])
    ensures r == [] || !IsWs(r[|r| - 1])
  {
    if s != [] && IsWs(s[|s| - 1]) then
      var r := TrimEnd(s[..|s| - 1]);
      assert s[|r|..] == s[..|s| - 1][|r|..] + [s[|s| - 1]];
      r
    else s
  }

  /** `String.prototype.trim`: leading and trailing whitespace removed. */
  function Trim(s: seq<char>): seq<char> {
    TrimEnd(TrimStart(s))
  }

  /** `!s.trim()` in JavaScript: the trimmed string is empty exactly when every
      character of `s` is whitespace. */
  lemma TrimEmptyIffBlank(s: seq<char>)
    ensures Trim(s) == [] <==> IsBlank(s)
  {
    var t := TrimStart(s);
    if Trim(s) == [] {
      assert IsBlank(t) by {
        assert t[0..] == t;
      }
      assert t == [];
      assert s[..|s|] == s;
    } else {
      var r := Trim(s);
      assert !IsWs(r[0]);
      assert r[0] == t[0] == s[|s| - |t|];
    }
  }

  /** Number of UTF-16 code units JavaScript uses for `c`: two (a surrogate
      pair) outside the Basic Multilingual Plane, one inside it. */
  predicate IsBmp(c: char) {
    c as int < 0x1_0000
  }

  function CodeUnits(c: char): nat {
    if IsBmp(c) then 1 else 2
  }

  /** JavaScript's `length` of the string `s`. */
  function Utf16Length(s: seq<char>): (n: nat)
    ensures |s| <= n <= 2 * |s|
    ensures n == |s| <==> Every(s, IsBmp)
  {
    if s == [] then 0
    else
      var front := s[..|s| - 1];
      var n := Utf16Length(front) + CodeUnits(s[|s| - 1]);
      assert Every(s, IsBmp) <==> Every(front, IsBmp) && IsBmp(s[|s| - 1]) by {
        if Every(front, IsBmp) && IsBmp(s[|s| - 1]) {
          forall i | 0 <= i < |s| ensures IsBmp(s[i]) {
            if i < |s| - 1 {
              assert s[i] == front[i];
            }
          }
        }
      }
      n
  }

  /** `length` grows by the code units of each appended character. */
  lemma {:induction false} Utf16LengthAppend(s: seq<char>, t: seq<char>)
    ensures Utf16Length(s + t) == Utf16Length(s) + Utf16Length(t)
    decreases |t|
  {
    if t == [] {
      assert s + t == s;
    } else {
      var front := t[..|t| - 1];
      Utf16LengthAppend(s, front);
      assert (s + t)[..|s + t| - 1] == s + front;
    }
  }
}
