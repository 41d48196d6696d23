/**
  * The JavaScript string operations the extension relies on, over `seq<char>`:
  * the `\s` character class (which is also what `trim` removes), `trim`,
  * `toLowerCase`, `includes`, `slice(0, n)`, `Array.prototype.join` and
  * `split` with a one-character separator.
  */
module Text {

  /** ECMAScript WhiteSpace and LineTerminator: the characters `\s` matches. */
  predicate IsWhitespace(c: char) {
    c == '\t' || c == '\n' || c == '\U{B}' || c == '\U{C}' || c == '\r' || c == ' '
    || c == '\U{A0}' || c == '\U{1680}' || ('\U{2000}' <= c <= '\U{200A}')
    || c == '\U{2028}' || c == '\U{2029}' || c == '\U{202F}' || c == '\U{205F}'
    || c == '\U{3000}' || c == '\U{FEFF}'
  }

  predicate AllWhitespace(s: string) {
    forall k :: 0 <= k < |s| ==> IsWhitespace(s[k])
  }

  /** `s` without its leading whitespace. */
  function TrimStart(s: string): (r: string)
    ensures |r| <= |s| && r == s[|s| - |r|..]
    ensures AllWhitespace(s[..|s| - |r|])
    ensures r == [] || !IsWhitespace(r[0])
  {
    if s != [] && IsWhitespace(s[0]) then TrimStart(s[1..]) else s
  }

  /** `s` without its trailing whitespace. */
  function TrimEnd(s: string): (r: string)
    ensures |r| <= |s| && r == s[..|r|]
    ensures AllWhitespace(s[|r|..])
    ensures r == [] || !IsWhitespace(r[|r| - 1])
  {
    if s != [] && IsWhitespace(s[|s| - 1]) then TrimEnd(s[..|s| - 1]) else s
  }

  /** `String.prototype.trim`: the middle of `s` once the whitespace at both ends is gone. */
  function Trim(s: string): (r: string)
    ensures exists a :: TrimmedAt(s, r, a)
    ensures r == [] || (!IsWhitespace(r[0]) && !IsWhitespace(r[|r| - 1]))
  {
    var t := TrimStart(s);
    var r := TrimEnd(t);
    TrimmedBetween(s, t, r);
    r
  }

  /** Whitespace cut from the front of `s`, then from the back of what is left, leaves a middle of `s`. */
  lemma TrimmedBetween(s: string, t: string, r: string)
    requires |t| <= |s| && t == s[|s| - |t|..] && AllWhitespace(s[..|s| - |t|])
    requires |r| <= |t| && r == t[..|r|] && AllWhitespace(t[|r|..])
    ensures TrimmedAt(s, r, |s| - |t|)
  {
    var a := |s| - |t|;
    assert s[a..][..|r|] == s[a..a + |r|];
    assert t[|r|..] == s[a + |r|..];
  }

  /** Text with no whitespace at either end is left as it is. */
  lemma TrimKeepsTrimmed(s: string)
    requires s == [] || (!IsWhitespace(s[0]) && !IsWhitespace(s[|s| - 1]))
    ensures Trim(s) == s
  {
    assert TrimStart(s) == s;
  }

  /** One whitespace character after such text is removed. */
  lemma TrimDropsTrailing(s: string, c: char)
    requires s != [] && !IsWhitespace(s[0]) && !IsWhitespace(s[|s| - 1]) && IsWhitespace(c)
    ensures Trim(s + [c]) == s
  {
    var t := s + [c];
    assert TrimStart(t) == t;
    assert t[..|t| - 1] == s;
    assert TrimEnd(t) == TrimEnd(s) == s;
  }

  /** `r` is `s[a..a + |r|]` and everything around it in `s` is whitespace. */
  ghost predicate TrimmedAt(s: string, r: string, a: int) {
    0 <= a <= a + |r| <= |s| && r == s[a..a + |r|]
    && AllWhitespace(s[..a]) && AllWhitespace(s[a + |r|..])
  }

  /** `toLowerCase` on one character; only the ASCII letters are mapped. */
  function LowerChar(c: char): char {
    if 'A' <= c <= 'Z' then (c as int + 32) as char else c
  }

  /**
    * `toLowerCase`: the same length, no upper-case ASCII letter left, every
    * upper-case ASCII letter replaced by its lower-case partner and every other
    * character kept.
    */
  function ToLower(s: string): (r: string)
    ensures |r| == |s|
    ensures forall k :: 0 <= k < |r| ==> !('A' <= r[k] <= 'Z')
    ensures forall k :: 0 <= k < |s| ==>
      ('A' <= s[k] <= 'Z' ==> r[k] as int == s[k] as int + 32) && (!('A' <= s[k] <= 'Z') ==> r[k] == s[k])
  {
    seq(|s|, k requires 0 <= k < |s| => LowerChar(s[k]))
  }

  /** `t` occurs in `s` starting at index `i`. */
  predicate OccursAt(s: string, t: string, i: int) {
    0 <= i && i + |t| <= |s| && s[i..i + |t|] == t
  }

  /** `String.prototype.includes`: `t` occurs somewhere in `s`. */
  function Contains(s: string, t: string): (r: bool)
    ensures r <==> exists i :: OccursAt(s, t, i)
  {
    if |t| > |s| then false
    else if s[..|t|] == t then
      assert OccursAt(s, t, 0);
      true
    else
      var r := Contains(s[1..], t);
      assert !OccursAt(s, t, 0);
      assert r ==> exists i :: OccursAt(s, t, i) by {
        if r {
          var i :| OccursAt(s[1..], t, i);
          assert s[1..][i..i + |t|] == s[i + 1..i + 1 + |t|];
          assert OccursAt(s, t, i + 1);
        }
      }
      assert (exists i :: OccursAt(s, t, i)) ==> r by {
        if exists i :: OccursAt(s, t, i) {
          var i :| OccursAt(s, t, i);
          assert i != 0;
          assert s[1..][i - 1..i - 1 + |t|] == s[i..i + |t|];
          assert OccursAt(s[1..], t, i - 1);
        }
      }
      r
  }

  /** The first `n` characters of `s`, or all of it when shorter (`s.slice(0, n)` for `n >= 0`). */
  function Prefix(s: string, n: nat): (r: string)
    ensures |r| == if |s| < n then |s| else n
    ensures r <= s
  {
    if |s| < n then s else s[..n]
  }

  predicate EndsWith(s: string, suffix: string) {
    |suffix| <= |s| && s[|s| - |suffix|..] == suffix
  }

  /** A concatenation starts with its first part and ends with its second. */
  lemma ConcatEnds(a: string, b: string)
    ensures a <= a + b && EndsWith(a + b, b)
  {
    assert (a + b)[|a|..] == b;
  }

  /** Concatenation is associative. */
  lemma AppendAssoc(a: string, b: string, c: string)
    ensures a + b + c == a + (b + c)
  {
  }

  /**
    * Adding `x` to the body of `head + body + tail` inserts it just before
    * `tail`, which the string ends with.
    */
  lemma InsertBeforeTail(head: string, body: string, x: string, tail: string)
    ensures var e := head + body + tail;
      EndsWith(e, tail) && head + (body + x) + tail == e[..|e| - |tail|] + x + tail
  {
    var e := head + body + tail;
    ConcatEnds(head + body, tail);
    assert e[..|e| - |tail|] == head + body;
    AppendAssoc(head, body, x);
  }

  /** A string ending with `t` ends with every ending of `t`. */
  lemma EndsWithTrans(s: string, t: string, u: string)
    requires EndsWith(s, t) && EndsWith(t, u)
    ensures EndsWith(s, u)
  {
    assert s[|s| - |u|..] == t[|t| - |u|..];
  }

  /** `Array.prototype.join(sep)`. */
  function Join(pieces: seq<string>, sep: string): string
  {
    if |pieces| == 0 then ""
    else if |pieces| == 1 then pieces[0]
    else pieces[0] + sep + Join(pieces[1..], sep)
  }

  /** A joined list starts with its first piece and ends with its last. */
  lemma {:induction false} JoinEnds(pieces: seq<string>, sep: string)
    requires pieces != []
    ensures pieces[0] <= Join(pieces, sep) && EndsWith(Join(pieces, sep), pieces[|pieces| - 1])
  {
    if |pieces| > 1 {
      JoinEnds(pieces[1..], sep);
      var rest := Join(pieces[1..], sep);
      var r := pieces[0] + sep + rest;
      assert r[|r| - |rest|..] == rest;
    }
  }

  /** Joining one more piece appends the separator and that piece. */
  lemma {:induction false} JoinAppend(pieces: seq<string>, x: string, sep: string)
    ensures Join(pieces + [x], sep) == if pieces == [] then x else Join(pieces, sep) + sep + x
  {
    if |pieces| > 1 {
      assert (pieces + [x])[1..] == pieces[1..] + [x];
      JoinAppend(pieces[1..], x, sep);
    }
  }

  /** `s.split(sep)` for a one-character separator: the pieces between separators, at least one. */
  function Split(s: string, sep: char): (r: seq<string>)
    ensures |r| >= 1
    ensures forall k :: 0 <= k < |r| ==> sep !in r[k]
  {
    if s == [] then [[]]
    else
      var rest := Split(s[1..], sep);
      if s[0] == sep then [[]] + rest
      else [[s[0]] + rest[0]] + rest[1..]
  }

  /** `split` and `join` with the same separator are inverse: no character is lost. */
  lemma {:induction false} SplitJoin(s: string, sep: char)
    ensures Join(Split(s, sep), [sep]) == s
  {
    if s != [] {
      var rest := Split(s[1..], sep);
      SplitJoin(s[1..], sep);
      if s[0] == sep {
        assert ([[]] + rest)[1..] == rest;
      } else {
        var r := [[s[0]] + rest[0]] + rest[1..];
        assert r[1..] == rest[1..];
        if |rest| > 1 {
          assert Join(rest, [sep]) == rest[0] + [sep] + Join(rest[1..], [sep]);
        }
      }
    }
  }

  /**
    * The last piece of `s.split(sep)` is the longest suffix of `s` free of `sep`:
    * either all of `s`, or what follows the last separator.
    */
  lemma {:induction false} SplitLast(s: string, sep: char)
    ensures var r := Split(s, sep); var last := r[|r| - 1];
      |last| <= |s| && last == s[|s| - |last|..] && sep !in last
      && (|last| < |s| ==> s[|s| - |last| - 1] == sep)
      && (|r| == 1 ==> last == s) && (|r| > 1 ==> |last| < |s|)
  {
    if s != [] {
      SplitLast(s[1..], sep);
      var rest := Split(s[1..], sep);
      var last := rest[|rest| - 1];
      var r := Split(s, sep);
      if s[0] == sep || |rest| > 1 {
        if s[0] == sep {
          assert r == [[]] + rest;
        } else {
          assert r == [[s[0]] + rest[0]] + rest[1..];
          assert r[|r| - 1] == rest[1..][|rest| - 2];
        }
        assert r[|r| - 1] == last && |r| > 1;
        assert s[1..][|s| - 1 - |last|..] == s[|s| - |last|..];
        if |last| < |s| - 1 {
          assert s[1..][|s| - 1 - |last| - 1] == s[|s| - |last| - 1];
        }
      } else {
        assert last == s[1..];
        assert r == [[s[0]] + last];
        assert [s[0]] + last == s;
        assert s[0..] == s;
      }
    }
  }
}
