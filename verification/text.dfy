/** Character-level string operations used by every analyzer variant:
    ASCII lower-casing, substring search, whitespace stripping and
    splitting a line on its delimiter. */
module Text {

  /** ASCII lower-casing of one character; every other character is unchanged. */
  function LowerChar(c: char): char
  {
    if 'A' <= c <= 'Z' then (c as int + 32) as char else c
  }

  /** `str.lower()` restricted to ASCII letters. */
  function Lower(s: string): (r: string)
    ensures |r| == |s|
    ensures forall i :: 0 <= i < |s| ==> r[i] == LowerChar(s[i])
  {
    if |s| == 0 then "" else [LowerChar(s[0])] + Lower(s[1..])
  }

  /** `sub` occurs in `s` starting at position `i`. */
  ghost predicate OccursAt(s: string, sub: string, i: nat)
  {
    i + |sub| <= |s| && s[i..i + |sub|] == sub
  }

  /** Python's `sub in s`, searched left to right. */
  function Contains(s: string, sub: string): bool
    decreases |s|
  {
    if |sub| > |s| then false
    else if s[..|sub|] == sub then true
    else Contains(s[1..], sub)
  }

  /** `sub in s` holds exactly when some position of `s` starts a copy of `sub`. */
  lemma {:induction false} ContainsSpec(s: string, sub: string)
    ensures Contains(s, sub) <==> exists i: nat :: OccursAt(s, sub, i)
    decreases |s|
  {
    if |sub| > |s| {
    } else if s[..|sub|] == sub {
      assert OccursAt(s, sub, 0);
    } else {
      ContainsSpec(s[1..], sub);
      if Contains(s, sub) {
        var i: nat :| OccursAt(s[1..], sub, i);
        assert s[1..][i..i + |sub|] == s[i + 1..i + 1 + |sub|];
        assert OccursAt(s, sub, i + 1);
      }
      if exists i: nat :: OccursAt(s, sub, i) {
        var i: nat :| OccursAt(s, sub, i);
        assert i != 0;
        assert s[1..][i - 1..i - 1 + |sub|] == s[i..i + |sub|];
        assert OccursAt(s[1..], sub, i - 1);
      }
    }
  }

  /** The characters Python's `str.strip()` removes, restricted to ASCII:
      space, \t, \n, \v, \f, \r and the separators U+001C to U+001F. */
  predicate IsSpace(c: char)
  {
    c == ' ' || '\t' <= c <= '\r' || '\U{1C}' <= c <= '\U{1F}'
  }

  ghost predicate AllSpace(s: string)
  {
    forall i :: 0 <= i < |s| ==> IsSpace(s[i])
  }

  /** Drops leading whitespace (`str.lstrip()`). */
  function TrimLeft(s: string): string
  {
    if |s| > 0 && IsSpace(s[0]) then TrimLeft(s[1..]) else s
  }

  /** Drops trailing whitespace (`str.rstrip()`). */
  function TrimRight(s: string): string
  {
    if |s| > 0 && IsSpace(s[|s| - 1]) then TrimRight(s[..|s| - 1]) else s
  }

  /** Python's `str.strip()`. */
  function Strip(s: string): string
  {
    TrimRight(TrimLeft(s))
  }

  /** The left trim is the suffix of `s` after its longest all-whitespace prefix. */
  lemma {:induction false} TrimLeftSpec(s: string)
    ensures |TrimLeft(s)| <= |s| && TrimLeft(s) == s[|s| - |TrimLeft(s)|..]
    ensures AllSpace(s[..|s| - |TrimLeft(s)|])
    ensures |TrimLeft(s)| > 0 ==> !IsSpace(TrimLeft(s)[0])
    decreases |s|
  {
    if |s| > 0 && IsSpace(s[0]) {
      TrimLeftSpec(s[1..]);
      var r := TrimLeft(s[1..]);
      assert s[..|s| - |r|] == [s[0]] + s[1..][..|s| - 1 - |r|];
    }
  }

  /** The right trim is the prefix of `s` before its longest all-whitespace suffix. */
  lemma {:induction false} TrimRightSpec(s: string)
    ensures |TrimRight(s)| <= |s| && TrimRight(s) == s[..|TrimRight(s)|]
    ensures AllSpace(s[|TrimRight(s)|..])
    ensures |TrimRight(s)| > 0 ==> !IsSpace(TrimRight(s)[|TrimRight(s)| - 1])
    decreases |s|
  {
    if |s| > 0 && IsSpace(s[|s| - 1]) {
      TrimRightSpec(s[..|s| - 1]);
      var r := TrimRight(s[..|s| - 1]);
      assert s[|r|..] == s[..|s| - 1][|r|..] + [s[|s| - 1]];
    }
  }

  /** Stripping keeps a contiguous slice of `s` that neither starts nor
      ends with whitespace and cuts away only whitespace; the result is
      empty exactly when `s` is all whitespace. */
  lemma StripSpec(s: string)
    ensures var r := Strip(s);
            exists a :: 0 <= a <= |s| - |r| && r == s[a..a + |r|]
              && AllSpace(s[..a]) && AllSpace(s[a + |r|..])
    ensures |Strip(s)| > 0 ==> !IsSpace(Strip(s)[0]) && !IsSpace(Strip(s)[|Strip(s)| - 1])
    ensures |Strip(s)| == 0 <==> AllSpace(s)
  {
    var left := TrimLeft(s);
    var r := TrimRight(left);
    TrimLeftSpec(s);
    TrimRightSpec(left);
    var a := |s| - |left|;
    assert s[a..a + |r|] == left[..|r|];
    assert s[a + |r|..] == left[|r|..];
  }

  /** Text that neither starts nor ends with whitespace is stripped to itself. */
  lemma StripUnpadded(s: string)
    requires |s| > 0 ==> !IsSpace(s[0]) && !IsSpace(s[|s| - 1])
    ensures Strip(s) == s
  {
  }

  lemma {:induction false} TrimLeftSpaces(pre: string, y: string)
    requires AllSpace(pre)
    ensures TrimLeft(pre + y) == TrimLeft(y)
    decreases |pre|
  {
    if |pre| == 0 {
      assert pre + y == y;
    } else {
      assert (pre + y)[0] == pre[0];
      assert (pre + y)[1..] == pre[1..] + y;
      TrimLeftSpaces(pre[1..], y);
    }
  }

  lemma {:induction false} TrimRightSpaces(z: string, post: string)
    requires AllSpace(post)
    ensures TrimRight(z + post) == TrimRight(z)
    decreases |post|
  {
    if |post| == 0 {
      assert z + post == z;
    } else {
      var zp := z + post;
      assert zp[|zp| - 1] == post[|post| - 1];
      assert zp[..|zp| - 1] == z + post[..|post| - 1];
      TrimRightSpaces(z, post[..|post| - 1]);
    }
  }

  lemma {:induction false} TrimLeftAppendSpaces(x: string, post: string)
    requires AllSpace(post)
    ensures TrimLeft(x + post) == if TrimLeft(x) == "" then "" else TrimLeft(x) + post
    decreases |x|
  {
    if |x| == 0 {
      assert x + post == post + "";
      TrimLeftSpaces(post, "");
    } else {
      assert (x + post)[0] == x[0];
      if IsSpace(x[0]) {
        assert (x + post)[1..] == x[1..] + post;
        TrimLeftAppendSpaces(x[1..], post);
      }
    }
  }

  /** Blanks around a field never matter to `strip()`: padding a text with
      whitespace on either side strips to the same result. */
  lemma StripPadded(pre: string, x: string, post: string)
    requires AllSpace(pre) && AllSpace(post)
    ensures Strip(pre + x + post) == Strip(x)
  {
    assert pre + x + post == pre + (x + post);
    TrimLeftSpaces(pre, x + post);
    TrimLeftAppendSpaces(x, post);
    if TrimLeft(x) != "" {
      TrimRightSpaces(TrimLeft(x), post);
    }
  }

  /** Splits `s` on every occurrence of `d`, keeping empty pieces, like
      `line.split(';')`; there is always at least one piece. */
  function Split(s: string, d: char): (r: seq<string>)
    ensures |r| >= 1
    decreases |s|
  {
    if |s| == 0 then [""]
    else
      var rest := Split(s[1..], d);
      if s[0] == d then [""] + rest else [[s[0]] + rest[0]] + rest[1..]
  }

  /** Glues the pieces back together with `d` between neighbours. */
  function Join(parts: seq<string>, d: char): string
    requires |parts| >= 1
  {
    if |parts| == 1 then parts[0] else parts[0] + [d] + Join(parts[1..], d)
  }

  lemma JoinConsFirst(c: char, parts: seq<string>, d: char)
    requires |parts| >= 1
    ensures Join([[c] + parts[0]] + parts[1..], d) == [c] + Join(parts, d)
  {
    var p := [[c] + parts[0]] + parts[1..];
    if |parts| > 1 {
      assert p[1..] == parts[1..];
    }
  }

  /** Splitting loses nothing: joining the pieces gives the line back, and
      no piece contains the delimiter. */
  lemma {:induction false} SplitJoin(s: string, d: char)
    ensures Join(Split(s, d), d) == s
    ensures forall k :: 0 <= k < |Split(s, d)| ==> d !in Split(s, d)[k]
    decreases |s|
  {
    if |s| > 0 {
      var rest := Split(s[1..], d);
      SplitJoin(s[1..], d);
      if s[0] == d {
        assert ([""] + rest)[1..] == rest;
      } else {
        JoinConsFirst(s[0], rest, d);
        var r := Split(s, d);
        forall k | 0 <= k < |r| ensures d !in r[k] {
          if k > 0 { assert r[k] == rest[k]; }
        }
      }
    }
  }

  /** Number of occurrences of `c` in `s`. */
  function Count(s: string, c: char): nat
  {
    if |s| == 0 then 0 else (if s[0] == c then 1 else 0) + Count(s[1..], c)
  }

  /** `s.replace(c, '')`. */
  function Delete(s: string, c: char): string
  {
    if |s| == 0 then ""
    else if s[0] == c then Delete(s[1..], c)
    else [s[0]] + Delete(s[1..], c)
  }

  /** Deleting `c` leaves no `c`, shortens the text by the number of `c`s
      and keeps the count of every other character; a text without `c` is
      left as it is. */
  lemma {:induction false} DeleteSpec(s: string, c: char)
    ensures c !in Delete(s, c) && Count(Delete(s, c), c) == 0
    ensures |Delete(s, c)| == |s| - Count(s, c)
    ensures forall x :: x != c ==> Count(Delete(s, c), x) == Count(s, x)
    ensures c !in s ==> Delete(s, c) == s
    decreases |s|
  {
    if |s| > 0 {
      DeleteSpec(s[1..], c);
      if s[0] != c {
        assert ([s[0]] + Delete(s[1..], c))[1..] == Delete(s[1..], c);
        assert c !in s ==> c !in s[1..];
        assert s == [s[0]] + s[1..];
      }
    }
  }

  /** Deletion works piece by piece and keeps the order of what remains:
      deleting from a concatenation concatenates the deletions, and a single
      character is dropped exactly when it is `c`. */
  lemma {:induction false} DeleteAppend(x: string, y: string, c: char)
    ensures Delete(x + y, c) == Delete(x, c) + Delete(y, c)
    ensures forall d :: Delete([d], c) == if d == c then "" else [d]
    decreases |x|
  {
    if |x| == 0 {
      assert x + y == y;
    } else {
      assert (x + y)[1..] == x[1..] + y;
      DeleteAppend(x[1..], y, c);
    }
    forall d ensures Delete([d], c) == if d == c then "" else [d] {
      assert [d][1..] == "";
    }
  }

  /** `s.replace(a, b)` for single characters `a != b`. */
  function Replace(s: string, a: char, b: char): string
  {
    if |s| == 0 then ""
    else [if s[0] == a then b else s[0]] + Replace(s[1..], a, b)
  }

  /** Replacing `a` by a different `b` keeps the length and every position:
      each `a` becomes `b` in place and every other character stays. So no
      `a` is left, the `a`s add to the count of `b` and every other count
      is kept. */
  lemma {:induction false} ReplaceSpec(s: string, a: char, b: char)
    requires a != b
    ensures |Replace(s, a, b)| == |s|
    ensures forall i :: 0 <= i < |s| ==> Replace(s, a, b)[i] == (if s[i] == a then b else s[i])
    ensures a !in Replace(s, a, b)
    ensures Count(Replace(s, a, b), b) == Count(s, b) + Count(s, a)
    ensures forall x :: x != a && x != b ==> Count(Replace(s, a, b), x) == Count(s, x)
    decreases |s|
  {
    if |s| > 0 {
      ReplaceSpec(s[1..], a, b);
      var r := Replace(s, a, b);
      assert r[1..] == Replace(s[1..], a, b);
      forall i | 0 < i < |s| ensures r[i] == (if s[i] == a then b else s[i]) {
        assert r[i] == r[1..][i - 1] && s[i] == s[1..][i - 1];
      }
    }
  }

  /** Replacement works piece by piece: replacing in a concatenation
      concatenates the replacements. */
  lemma {:induction false} ReplaceAppend(x: string, y: string, a: char, b: char)
    ensures Replace(x + y, a, b) == Replace(x, a, b) + Replace(y, a, b)
    decreases |x|
  {
    if |x| == 0 {
      assert x + y == y;
    } else {
      assert (x + y)[1..] == x[1..] + y;
      ReplaceAppend(x[1..], y, a, b);
    }
  }
}
