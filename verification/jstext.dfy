/**
 The slice of JavaScript string semantics the page script relies on:
 nullable values, the whitespace class shared by `String.prototype.trim`
 and the regular-expression escapes `\s`/`\S`, `trim` itself, and
 `.length`, which counts UTF-16 code units rather than characters.
 */
module JsText {

  /** A value that may be `null`/`undefined` (None) or a string (Some). */
  datatype Option<+T> = None | Some(value: T)

  /** JavaScript truthiness of a possibly-missing string: `!v` holds
      exactly for a missing value and for the empty string. */
  predicate Falsy(v: Option<string>) {
    v.None? || v.value == ""
  }

  /** The ECMAScript WhiteSpace and LineTerminator code points: the set
      removed by `trim` and matched by `\s`. */
  predicate IsWhitespace(c: char) {
    || c == '\t' || c == '\n' || c == '\U{000B}' || c == '\U{000C}' || c == '\r'
    || c == ' ' || c == '\U{00A0}' || c == '\U{1680}'
    || ('\U{2000}' <= c <= '\U{200A}')
    || c == '\U{2028}' || c == '\U{2029}' || c == '\U{202F}' || c == '\U{205F}'
    || c == '\U{3000}' || c == '\U{FEFF}'
  }

  /** Every whitespace character lies in the Basic Multilingual Plane, and
      letters, digits, `@` and `.` are never whitespace. */
  lemma WhitespaceClass(c: char)
    ensures IsWhitespace(c) ==> c as int <= 0xFFFF
    ensures ('0' <= c <= '9' || 'a' <= c <= 'z' || 'A' <= c <= 'Z' || c == '@' || c == '.') ==> !IsWhitespace(c)
  {
  }

  predicate AllWhitespace(s: string) {
    forall k :: 0 <= k < |s| ==> IsWhitespace(s[k])
  }

  /** The first position at or after `i` that does not hold whitespace,
      or `|s|` when there is none. */
  function TrimStart(s: string, i: nat): (a: nat)
    requires i <= |s|
    ensures i <= a <= |s|
    ensures forall k :: i <= k < a ==> IsWhitespace(s[k])
    ensures a < |s| ==> !IsWhitespace(s[a])
    decreases |s| - i
  {
    if i < |s| && IsWhitespace(s[i]) then TrimStart(s, i + 1) else i
  }

  /** The end (exclusive) of the text before position `j` once trailing
      whitespace is dropped, going no lower than `a`. */
  function TrimEnd(s: string, a: nat, j: nat): (b: nat)
    requires a <= j <= |s|
    ensures a <= b <= j
    ensures forall k :: b <= k < j ==> IsWhitespace(s[k])
    ensures b > a ==> !IsWhitespace(s[b - 1])
    decreases j
  {
    if j > a && IsWhitespace(s[j - 1]) then TrimEnd(s, a, j - 1) else j
  }

  /** `String.prototype.trim`: everything between the leading and the
      trailing whitespace; nothing at all when `s` is all whitespace. */
  function Trim(s: string): (r: string)
    ensures |r| <= |s|
  {
    var a := TrimStart(s, 0);
    s[a..TrimEnd(s, a, |s|)]
  }

  /** What `Trim` computes: the slice of `s` left after removing every
      leading and trailing whitespace character. It is empty exactly when
      `s` is all whitespace, and otherwise starts and ends on a
      non-whitespace character. */
  lemma TrimCharacterized(s: string)
    ensures var r := Trim(s);
      && (r == [] <==> AllWhitespace(s))
      && (r != [] ==> !IsWhitespace(r[0]) && !IsWhitespace(r[|r| - 1]))
      && exists i :: 0 <= i <= |s| - |r| && r == s[i..i + |r|]
                     && AllWhitespace(s[..i]) && AllWhitespace(s[i + |r|..])
  {
    var a := TrimStart(s, 0);
    var b := TrimEnd(s, a, |s|);
    var r := Trim(s);
    assert r == s[a..b];
    assert AllWhitespace(s[..a]) by {
      forall k | 0 <= k < a ensures IsWhitespace(s[..a][k]) { assert s[..a][k] == s[k]; }
    }
    assert AllWhitespace(s[b..]) by {
      forall k | 0 <= k < |s| - b ensures IsWhitespace(s[b..][k]) { assert s[b..][k] == s[b + k]; }
    }
    if a < |s| {
      assert b > a;
      assert r[0] == s[a] && r[|r| - 1] == s[b - 1];
    }
  }

  /** Trimming never looks inside a non-whitespace core: surrounding it
      with any amount of whitespace leaves its trimmed form unchanged. */
  lemma TrimIgnoresPadding(pre: string, s: string, post: string)
    requires AllWhitespace(pre) && AllWhitespace(post)
    ensures Trim(pre + s + post) == Trim(s)
  {
    var t := pre + s + post;
    PaddedLayout(pre, s, post);
    if TrimStart(s, 0) < |s| {
      TrimOfLayoutText(t, s, |pre|);
    } else {
      TrimOfLayoutBlank(t, s, |pre|);
    }
  }

  /** `s` sits at offset `d` of `t`, with only whitespace around it. */
  predicate Embedded(t: string, s: string, d: nat) {
    && d + |s| <= |t|
    && (forall k :: 0 <= k < |s| ==> t[d + k] == s[k])
    && (forall k :: 0 <= k < d ==> IsWhitespace(t[k]))
    && (forall k :: d + |s| <= k < |t| ==> IsWhitespace(t[k]))
  }

  lemma PaddedLayout(pre: string, s: string, post: string)
    requires AllWhitespace(pre) && AllWhitespace(post)
    ensures Embedded(pre + s + post, s, |pre|)
  {
    var t := pre + s + post;
    forall k | |pre| + |s| <= k < |t| ensures IsWhitespace(t[k]) {
      assert t[k] == post[k - |pre| - |s|];
    }
  }

  lemma TrimOfLayoutText(t: string, s: string, d: nat)
    requires Embedded(t, s, d) && TrimStart(s, 0) < |s|
    ensures Trim(t) == Trim(s)
  {
    var a := TrimStart(s, 0);
    assert TrimStart(t, 0) == d + a by {
      StartSkips(t, 0, d);
      StartAgrees(t, s, d, 0);
    }
    assert TrimEnd(t, d + a, |t|) == d + TrimEnd(s, a, |s|) by {
      EndSkips(t, d + a, d + |s|, |t|);
      EndAgrees(t, s, d, a, |s|);
    }
    TrimOfShifted(t, s, d);
  }

  /** When `s` sits at offset `d` inside `t` and the scans of `t` stop at
      the places the scans of `s` stop, shifted by `d`, both trim to the
      same text. */
  lemma TrimOfShifted(t: string, s: string, d: nat)
    requires d + |s| <= |t|
    requires forall k :: 0 <= k < |s| ==> t[d + k] == s[k]
    requires TrimStart(t, 0) == d + TrimStart(s, 0)
    requires TrimEnd(t, d + TrimStart(s, 0), |t|) == d + TrimEnd(s, TrimStart(s, 0), |s|)
    ensures Trim(t) == Trim(s)
  {
    var a := TrimStart(s, 0);
    var b := TrimEnd(s, a, |s|);
    TrimAt(t, d + a, d + b);
    ShiftedSlice(t, s, d, a, b);
    TrimAt(s, a, b);
  }

  lemma TrimOfLayoutBlank(t: string, s: string, d: nat)
    requires Embedded(t, s, d) && TrimStart(s, 0) == |s|
    ensures Trim(t) == Trim(s)
  {
    assert forall k :: 0 <= k < |t| ==> IsWhitespace(t[k]) by {
      forall k | d <= k < d + |s| ensures IsWhitespace(t[k]) {
        assert t[k] == s[k - d];
      }
    }
    StartSkips(t, 0, |t|);
    TrimAt(t, |t|, |t|);
    TrimAt(s, |s|, |s|);
  }

  lemma TrimAt(s: string, a: nat, b: nat)
    requires a <= b <= |s| && TrimStart(s, 0) == a && TrimEnd(s, a, |s|) == b
    ensures Trim(s) == s[a..b]
  {
  }

  lemma ShiftedSlice(t: string, s: string, d: nat, a: nat, b: nat)
    requires a <= b <= |s| && d + |s| <= |t|
    requires forall k :: 0 <= k < |s| ==> t[d + k] == s[k]
    ensures t[d + a..d + b] == s[a..b]
  {
  }

  /** The forward scan passes over a run of whitespace. */
  lemma {:induction false} StartSkips(t: string, i: nat, j: nat)
    requires i <= j <= |t|
    requires forall k :: i <= k < j ==> IsWhitespace(t[k])
    ensures TrimStart(t, i) == TrimStart(t, j)
    decreases j - i
  {
    if i < j {
      StartSkips(t, i + 1, j);
    }
  }

  /** Scanning forward inside a copy of `s` stops where the scan of `s`
      stops, as long as that is inside `s`. */
  lemma {:induction false} StartAgrees(t: string, s: string, d: nat, i: nat)
    requires d + |s| <= |t| && i <= |s| && TrimStart(s, i) < |s|
    requires forall k :: 0 <= k < |s| ==> t[d + k] == s[k]
    ensures TrimStart(t, d + i) == d + TrimStart(s, i)
    decreases |s| - i
  {
    assert t[d + i] == s[i];
    if IsWhitespace(s[i]) {
      StartAgrees(t, s, d, i + 1);
    }
  }

  /** The backward scan passes over a run of whitespace. */
  lemma {:induction false} EndSkips(t: string, a: nat, j: nat, m: nat)
    requires a <= j <= m <= |t|
    requires forall k :: j <= k < m ==> IsWhitespace(t[k])
    ensures TrimEnd(t, a, m) == TrimEnd(t, a, j)
    decreases m - j
  {
    if j < m {
      EndSkips(t, a, j, m - 1);
    }
  }

  /** Scanning backward inside a copy of `s` stops where the scan of `s`
      stops. */
  lemma {:induction false} EndAgrees(t: string, s: string, d: nat, a: nat, j: nat)
    requires d + |s| <= |t| && a <= j <= |s|
    requires forall k :: 0 <= k < |s| ==> t[d + k] == s[k]
    ensures TrimEnd(t, d + a, d + j) == d + TrimEnd(s, a, j)
    decreases j
  {
    if j > a {
      assert t[d + j - 1] == s[j - 1];
      EndAgrees(t, s, d, a, j - 1);
    }
  }

  /** Trimming twice is trimming once. */
  lemma TrimIdempotent(s: string)
    ensures Trim(Trim(s)) == Trim(s)
  {
    var r := Trim(s);
    TrimCharacterized(s);
    if r != [] {
      assert TrimStart(r, 0) == 0;
      assert TrimEnd(r, 0, |r|) == |r|;
      assert r[0..|r|] == r;
    }
  }

  /** A character outside the Basic Multilingual Plane occupies two UTF-16
      code units (a surrogate pair); every other character occupies one. */
  function CodeUnits(c: char): nat {
    if c as int > 0xFFFF then 2 else 1
  }

  predicate InBmp(s: string) {
    forall k :: 0 <= k < |s| ==> s[k] as int <= 0xFFFF
  }

  /** JavaScript `.length`: the number of UTF-16 code units of `s`. It lies
      between the number of characters and twice that. */
  function Utf16Length(s: string): (n: nat)
    ensures |s| <= n <= 2 * |s|
  {
    if s == [] then 0 else Utf16Length(s[..|s| - 1]) + CodeUnits(s[|s| - 1])
  }

  /** `.length` equals the number of characters exactly when no character
      needs a surrogate pair. */
  lemma {:induction false} Utf16LengthBmp(s: string)
    ensures Utf16Length(s) == |s| <==> InBmp(s)
    decreases |s|
  {
    if s != [] {
      var p := s[..|s| - 1];
      Utf16LengthBmp(p);
      assert InBmp(s) <==> InBmp(p) && s[|s| - 1] as int <= 0xFFFF by {
        assert forall k :: 0 <= k < |p| ==> p[k] == s[k];
      }
    }
  }

  /** `.length` adds up over concatenation: each character contributes its
      own code units wherever it stands. */
  lemma {:induction false} Utf16LengthAppend(a: string, b: string)
    ensures Utf16Length(a + b) == Utf16Length(a) + Utf16Length(b)
    decreases |b|
  {
    if b == [] {
      assert a + b == a;
    } else {
      var b' := b[..|b| - 1];
      var ab := a + b;
      assert ab[..|ab| - 1] == a + b' by {
        assert b == b' + [b[|b| - 1]];
      }
      assert Utf16Length(ab) == Utf16Length(a + b') + CodeUnits(b[|b| - 1]);
      Utf16LengthAppend(a, b');
    }
  }

  /** A slice is never longer, in code units, than a slice containing it. */
  lemma Utf16LengthSliceMono(s: string, a: nat, i: nat, j: nat, b: nat)
    requires a <= i <= j <= b <= |s|
    ensures Utf16Length(s[i..j]) <= Utf16Length(s[a..b])
  {
    assert s[a..b] == s[a..i] + s[i..j] + s[j..b];
    Utf16LengthAppend(s[a..i], s[i..j]);
    Utf16LengthAppend(s[a..i] + s[i..j], s[j..b]);
  }

  /** For any text, the trimmed `.length` is at least `n` exactly when some
      stretch from one non-whitespace character to another is at least `n`
      code units long. */
  lemma TrimmedUtf16LengthAtLeast(s: string, n: nat)
    requires n >= 1
    ensures Utf16Length(Trim(s)) >= n <==>
      exists i, j :: 0 <= i <= j < |s| && !IsWhitespace(s[i]) && !IsWhitespace(s[j])
                     && Utf16Length(s[i..j + 1]) >= n
  {
    if Utf16Length(Trim(s)) >= n {
      TrimmedWitness(s, n);
    }
    forall i, j | 0 <= i <= j < |s| && !IsWhitespace(s[i]) && !IsWhitespace(s[j])
      ensures Utf16Length(s[i..j + 1]) <= Utf16Length(Trim(s))
    {
      TrimmedCovers(s, i, j);
    }
  }

  lemma TrimmedWitness(s: string, n: nat)
    requires n >= 1 && Utf16Length(Trim(s)) >= n
    ensures exists i, j :: 0 <= i <= j < |s| && !IsWhitespace(s[i]) && !IsWhitespace(s[j])
                           && Utf16Length(s[i..j + 1]) >= n
  {
    var a := TrimStart(s, 0);
    var b := TrimEnd(s, a, |s|);
    assert Trim(s) == s[a..b] by {
      TrimAt(s, a, b);
    }
    assert b > a;
    assert s[a..b] == s[a..(b - 1) + 1];
  }

  lemma TrimmedCovers(s: string, i: nat, j: nat)
    requires i <= j < |s| && !IsWhitespace(s[i]) && !IsWhitespace(s[j])
    ensures Utf16Length(s[i..j + 1]) <= Utf16Length(Trim(s))
  {
    var a := TrimStart(s, 0);
    var b := TrimEnd(s, a, |s|);
    TrimSpanCovers(s, i, j);
    TrimAt(s, a, b);
    Utf16LengthSliceMono(s, a, i, j + 1, b);
  }

  /** Every non-whitespace character lies inside the span `trim` keeps. */
  lemma TrimSpanCovers(s: string, i: nat, j: nat)
    requires i <= j < |s| && !IsWhitespace(s[i]) && !IsWhitespace(s[j])
    ensures TrimStart(s, 0) <= i && j < TrimEnd(s, TrimStart(s, 0), |s|)
  {
  }

  /** For text within the Basic Multilingual Plane, the trimmed length is at
      least `n` exactly when two non-whitespace characters lie at least
      `n - 1` positions apart. */
  lemma TrimmedLengthAtLeast(s: string, n: nat)
    requires n >= 1 && InBmp(s)
    ensures Utf16Length(Trim(s)) >= n <==>
      exists i, j :: 0 <= i <= j < |s| && j - i + 1 >= n
                     && !IsWhitespace(s[i]) && !IsWhitespace(s[j])
  {
    var a := TrimStart(s, 0);
    var b := TrimEnd(s, a, |s|);
    var r := Trim(s);
    assert r == s[a..b];
    InBmpSlice(s, a, b);
    Utf16LengthBmp(r);
    if a < |s| {
      assert b > a;
    }
    SpanLengthAtLeast(s, a, b - a, n);
  }

  lemma InBmpSlice(s: string, a: nat, b: nat)
    requires InBmp(s) && a <= b <= |s|
    ensures InBmp(s[a..b])
  {
    forall k | 0 <= k < b - a ensures s[a..b][k] as int <= 0xFFFF { assert s[a..b][k] == s[a + k]; }
  }

  /** A span of `s` with only whitespace outside it and, when non-empty,
      non-whitespace at both ends, is as long as the farthest-apart pair of
      non-whitespace characters. */
  lemma SpanLengthAtLeast(s: string, a: nat, len: nat, n: nat)
    requires a + len <= |s| && n >= 1
    requires forall k :: 0 <= k < a ==> IsWhitespace(s[k])
    requires forall k :: a + len <= k < |s| ==> IsWhitespace(s[k])
    requires len > 0 ==> !IsWhitespace(s[a]) && !IsWhitespace(s[a + len - 1])
    ensures len >= n <==>
      exists i, j :: 0 <= i <= j < |s| && j - i + 1 >= n
                     && !IsWhitespace(s[i]) && !IsWhitespace(s[j])
  {
  }
}
