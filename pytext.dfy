/** The few pieces of Python's `str` that the node uses on configuration
    strings and file contents: `strip`, `rstrip("/")` and `split(",")`. */
module PyText {

  /** `str.isspace` of one character: the Unicode code points Python treats
      as whitespace (ASCII tab to carriage return, the four information
      separators, space, NEL, NBSP and the Unicode space separators). */
  predicate IsSpace(c: char) {
    var u := c as int;
    (9 <= u <= 13) || (28 <= u <= 32) || u == 0x85 || u == 0xA0 || u == 0x1680
    || (0x2000 <= u <= 0x200A) || u == 0x2028 || u == 0x2029 || u == 0x202F
    || u == 0x205F || u == 0x3000
  }

  predicate AllSpace(s: string) {
    forall i :: 0 <= i < |s| ==> IsSpace(s[i])
  }

  /** Neither end of `s` is whitespace. */
  predicate IsStripped(s: string) {
    s == [] || (!IsSpace(s[0]) && !IsSpace(s[|s| - 1]))
  }

  /** `s.lstrip()`: drops leading whitespace (see StripLeftShape). */
  function StripLeft(s: string): (r: string)
    ensures |r| <= |s| && (r == [] || !IsSpace(r[0]))
  {
    if s != [] && IsSpace(s[0]) then StripLeft(s[1..]) else s
  }

  /** `lstrip` leaves a suffix, drops only whitespace, and stops at the
      first character that is not whitespace. */
  lemma {:induction false} StripLeftShape(s: string)
    ensures |StripLeft(s)| <= |s| && StripLeft(s) == s[|s| - |StripLeft(s)|..]
    ensures AllSpace(s[..|s| - |StripLeft(s)|])
    ensures StripLeft(s) == [] || !IsSpace(StripLeft(s)[0])
  {
    if s != [] && IsSpace(s[0]) {
      StripLeftShape(s[1..]);
      var r := StripLeft(s[1..]);
      assert s[|s| - |r|..] == s[1..][|s| - 1 - |r|..];
      assert s[..|s| - |r|] == [s[0]] + s[1..][..|s| - 1 - |r|];
    }
  }

  /** `s.rstrip()`: drops trailing whitespace (see StripRightShape). */
  function StripRight(s: string): (r: string)
    ensures |r| <= |s| && (r == [] || !IsSpace(r[|r| - 1]))
  {
    if s != [] && IsSpace(s[|s| - 1]) then StripRight(s[..|s| - 1]) else s
  }

  /** `rstrip` leaves a prefix, drops only whitespace, and stops at the
      last character that is not whitespace. */
  lemma {:induction false} StripRightShape(s: string)
    ensures |StripRight(s)| <= |s| && StripRight(s) == s[..|StripRight(s)|]
    ensures AllSpace(s[|StripRight(s)|..])
    ensures StripRight(s) == [] || !IsSpace(StripRight(s)[|StripRight(s)| - 1])
  {
    if s != [] && IsSpace(s[|s| - 1]) {
      var init := s[..|s| - 1];
      StripRightShape(init);
      var r := StripRight(init);
      assert init[..|r|] == s[..|r|];
      assert s[|r|..] == init[|r|..] + [s[|s| - 1]];
    }
  }

  /** `r` is `s` with only whitespace cut away: `i` characters in front and
      the rest after `r`. */
  predicate PaddedBy(s: string, r: string, i: int) {
    0 <= i <= |s| - |r| && s[i..i + |r|] == r
    && AllSpace(s[..i]) && AllSpace(s[i + |r|..])
  }

  /** `s.strip()` (see StripShape and StripPadded). */
  function Strip(s: string): (r: string)
    ensures |r| <= |s|
  {
    StripRight(StripLeft(s))
  }

  /** The result of `strip` is stripped, and `s` is that result with
      whitespace padding on both sides. */
  lemma StripShape(s: string)
    ensures IsStripped(Strip(s))
    ensures exists i :: PaddedBy(s, Strip(s), i)
  {
    var l := StripLeft(s);
    var r := StripRight(l);
    StripLeftShape(s);
    StripRightShape(l);
    var i := |s| - |l|;
    assert l == s[i..];
    assert s[i..i + |r|] == l[..|r|];
    assert s[i + |r|..] == l[|r|..];
    assert PaddedBy(s, r, i);
  }

  lemma {:induction false} StripLeftPadding(a: string, t: string)
    requires AllSpace(a)
    requires t == [] || !IsSpace(t[0])
    ensures StripLeft(a + t) == t
  {
    if a != [] {
      assert (a + t)[1..] == a[1..] + t;
      StripLeftPadding(a[1..], t);
    }
  }

  lemma {:induction false} StripRightPadding(t: string, b: string)
    requires AllSpace(b)
    requires t == [] || !IsSpace(t[|t| - 1])
    ensures StripRight(t + b) == t
  {
    if b != [] {
      assert (t + b)[..|t + b| - 1] == t + b[..|b| - 1];
      StripRightPadding(t, b[..|b| - 1]);
    }
  }

  /** `strip` removes exactly the whitespace padding around a stripped text:
      together with Strip's contract this characterises it completely. */
  lemma StripPadded(a: string, t: string, b: string)
    requires AllSpace(a) && AllSpace(b) && IsStripped(t)
    ensures Strip(a + t + b) == t
  {
    if t == [] {
      assert a + t + b == a + b;
      StripLeftPadding(a + b, []);
      assert a + b + [] == a + b;
    } else {
      assert a + t + b == a + (t + b);
      StripLeftPadding(a, t + b);
      StripRightPadding(t, b);
    }
  }

  /** `s.rstrip(c)` for a single character `c`: drops every trailing `c`
      (see RStripCharShape). */
  function RStripChar(s: string, c: char): (r: string)
    ensures |r| <= |s| && (r == [] || r[|r| - 1] != c)
  {
    if s != [] && s[|s| - 1] == c then RStripChar(s[..|s| - 1], c) else s
  }

  /** `rstrip(c)` leaves a prefix, everything it drops is `c`, and what it
      leaves does not end in `c`. */
  lemma {:induction false} RStripCharShape(s: string, c: char)
    ensures |RStripChar(s, c)| <= |s| && RStripChar(s, c) == s[..|RStripChar(s, c)|]
    ensures forall k :: |RStripChar(s, c)| <= k < |s| ==> s[k] == c
    ensures RStripChar(s, c) == [] || RStripChar(s, c)[|RStripChar(s, c)| - 1] != c
  {
    if s != [] && s[|s| - 1] == c {
      var init := s[..|s| - 1];
      RStripCharShape(init, c);
      assert init[..|RStripChar(init, c)|] == s[..|RStripChar(init, c)|];
    }
  }

  /** The inverse of `split(",")`: the parts with a comma between each two. */
  function JoinComma(parts: seq<string>): string
    requires |parts| >= 1
  {
    if |parts| == 1 then parts[0] else parts[0] + "," + JoinComma(parts[1..])
  }

  /** `s.split(",")`: never empty (`"".split(",") == [""]`), no part holds a
      comma, and joining the parts back gives `s`. */
  function SplitComma(s: string): (parts: seq<string>)
    ensures |parts| >= 1
    ensures forall k :: 0 <= k < |parts| ==> ',' !in parts[k]
    ensures JoinComma(parts) == s
  {
    if s == [] then [[]]
    else
      var rest := SplitComma(s[1..]);
      if s[0] == ',' then
        assert JoinComma([[]] + rest) == "," + JoinComma(rest) by {
          assert ([[]] + rest)[1..] == rest;
        }
        [[]] + rest
      else
        var parts := [[s[0]] + rest[0]] + rest[1..];
        assert JoinComma(parts) == [s[0]] + JoinComma(rest) by {
          if |rest| > 1 {
            assert parts[1..] == rest[1..];
          }
        }
        parts
  }

  lemma {:induction false} SplitCommaFree(p: string)
    requires ',' !in p
    ensures SplitComma(p) == [p]
  {
    if p != [] {
      SplitCommaFree(p[1..]);
    }
  }

  lemma {:induction false} SplitAtComma(p: string, t: string)
    requires ',' !in p
    ensures SplitComma(p + "," + t) == [p] + SplitComma(t)
  {
    if p == [] {
      assert p + "," + t == [','] + t;
      assert ([','] + t)[1..] == t;
    } else {
      assert (p + "," + t)[1..] == p[1..] + "," + t;
      SplitAtComma(p[1..], t);
      assert [p[0]] + p[1..] == p;
    }
  }

  /** `split(",")` is the only comma-free decomposition: splitting a join of
      comma-free parts gives back those parts, in order. */
  lemma {:induction false} SplitJoin(parts: seq<string>)
    requires |parts| >= 1
    requires forall k :: 0 <= k < |parts| ==> ',' !in parts[k]
    ensures SplitComma(JoinComma(parts)) == parts
  {
    if |parts| == 1 {
      SplitCommaFree(parts[0]);
    } else {
      SplitJoin(parts[1..]);
      SplitAtComma(parts[0], JoinComma(parts[1..]));
    }
  }
}
