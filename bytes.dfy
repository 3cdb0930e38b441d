/** Byte strings: every JavaScript string of the system is modelled by its UTF-8 bytes.
    MongoDB compares strings byte by byte, and Node's Buffer encodes bytes, so this is the
    view in which the sweep's comparison and the cipher's encodings are exact. */
module Bytes {

  type byte = bv8
  type Text = seq<byte>

  datatype Option<+T> = None | Some(value: T)

  const Colon: byte := 0x3A       // ':'
  const Pipe: byte := 0x7C        // '|'
  const Zero: byte := 0x30        // '0'

  predicate IsDigit(c: byte) { 0x30 <= c <= 0x39 }

  predicate IsAllDigits(t: Text) { forall i | 0 <= i < |t| :: IsDigit(t[i]) }

  /** True when `p` is a prefix of `t` (JavaScript's `startsWith`). */
  predicate StartsWith(t: Text, p: Text) { |p| <= |t| && t[..|p|] == p }

  /** Number of occurrences of `c` in `t`. */
  function Count(t: Text, c: byte): nat
    decreases |t|
  {
    if |t| == 0 then 0 else (if t[0] == c then 1 else 0) + Count(t[1..], c)
  }

  // ---------------------------------------------------------------------------
  // JavaScript's String.prototype.split with a one-character separator.

  function SplitOn(t: Text, c: byte): (parts: seq<Text>)
    ensures |parts| >= 1
    decreases |t|
  {
    if |t| == 0 then [[]]
    else
      var rest := SplitOn(t[1..], c);
      if t[0] == c then [[]] + rest else [[t[0]] + rest[0]] + rest[1..]
  }

  /** The separator does not occur in any part, and there is one more part than separators. */
  lemma {:induction false} SplitOnShape(t: Text, c: byte)
    ensures |SplitOn(t, c)| == Count(t, c) + 1
    ensures forall k | 0 <= k < |SplitOn(t, c)| :: c !in SplitOn(t, c)[k]
    decreases |t|
  {
    if |t| > 0 {
      SplitOnShape(t[1..], c);
    }
  }

  /** A text without the separator is one part. */
  lemma {:induction false} SplitOnNone(t: Text, c: byte)
    requires c !in t
    ensures SplitOn(t, c) == [t]
    decreases |t|
  {
    if |t| > 0 {
      SplitOnNone(t[1..], c);
      assert t == [t[0]] + t[1..];
    }
  }

  /** Splitting peels off the text before the first separator. */
  lemma {:induction false} SplitOnFirst(a: Text, c: byte, rest: Text)
    requires c !in a
    ensures SplitOn(a + [c] + rest, c) == [a] + SplitOn(rest, c)
    decreases |a|
  {
    if |a| == 0 {
      assert a + [c] + rest == [c] + rest;
      assert ([c] + rest)[1..] == rest;
    } else {
      SplitOnFirst(a[1..], c, rest);
      assert (a + [c] + rest)[1..] == a[1..] + [c] + rest;
      assert a == [a[0]] + a[1..];
    }
  }

  /** Two texts that are each three parts joined by a separator that occurs in neither of
      the first two parts agree part by part. */
  lemma ThreePartsDetermine(a1: Text, b1: Text, c1: Text, a2: Text, b2: Text, c2: Text, sep: byte)
    requires sep !in a1 && sep !in b1 && sep !in a2 && sep !in b2
    requires a1 + [sep] + b1 + [sep] + c1 == a2 + [sep] + b2 + [sep] + c2
    ensures a1 == a2 && b1 == b2 && c1 == c2
  {
    assert a1 + [sep] + b1 + [sep] + c1 == a1 + [sep] + (b1 + [sep] + c1);
    assert a2 + [sep] + b2 + [sep] + c2 == a2 + [sep] + (b2 + [sep] + c2);
    SeparatorDetermines(a1, b1 + [sep] + c1, a2, b2 + [sep] + c2, sep);
    SeparatorDetermines(b1, c1, b2, c2, sep);
  }

  /** Two texts that are each "no separator, separator, rest" agree on both halves. */
  lemma SeparatorDetermines(a1: Text, r1: Text, a2: Text, r2: Text, c: byte)
    requires c !in a1 && c !in a2
    requires a1 + [c] + r1 == a2 + [c] + r2
    ensures a1 == a2 && r1 == r2
  {
    var t := a1 + [c] + r1;
    assert forall k | 0 <= k < |a1| :: t[k] != c;
    assert forall k | 0 <= k < |a2| :: t[k] != c;
    assert t[|a1|] == c && t[|a2|] == c;
    assert a1 == t[..|a1|] == a2;
    assert r1 == t[|a1| + 1..] == r2;
  }

  // ---------------------------------------------------------------------------
  // Byte-wise lexicographic order: MongoDB's comparison of two strings.

  predicate LexLess(a: Text, b: Text)
    decreases |a|
  {
    if |b| == 0 then false
    else if |a| == 0 then true
    else if a[0] != b[0] then a[0] < b[0]
    else LexLess(a[1..], b[1..])
  }

  /** A common prefix does not change the order. */
  lemma {:induction false} LexLessCommonPrefix(p: Text, a: Text, b: Text)
    ensures LexLess(p + a, p + b) == LexLess(a, b)
    decreases |p|
  {
    if |p| > 0 {
      LexLessCommonPrefix(p[1..], a, b);
      assert (p + a)[1..] == p[1..] + a;
      assert (p + b)[1..] == p[1..] + b;
    } else {
      assert p + a == a && p + b == b;
    }
  }

  /** After a common prefix, the first differing byte decides. */
  lemma LexLessAtFirstDifference(p: Text, x: byte, a: Text, y: byte, b: Text)
    requires x != y
    ensures LexLess(p + [x] + a, p + [y] + b) <==> x < y
  {
    LexLessCommonPrefix(p, [x] + a, [y] + b);
    assert p + [x] + a == p + ([x] + a);
    assert p + [y] + b == p + ([y] + b);
  }

  lemma {:induction false} LexLessIrreflexive(a: Text)
    ensures !LexLess(a, a)
    decreases |a|
  {
    if |a| > 0 {
      LexLessIrreflexive(a[1..]);
    }
  }

  // ---------------------------------------------------------------------------
  // JavaScript's String.prototype.trim. It removes the characters of the grammar's
  // WhiteSpace and LineTerminator productions; on UTF-8 bytes each is one of the
  // sequences below, and since UTF-8 is self-synchronising, removing whole sequences
  // from either end of a valid encoding removes exactly those characters.

  /** The one-byte characters `trim` removes: tab, line feed, vertical tab, form feed,
      carriage return and space. */
  predicate IsSpace1(c: byte) { c == 0x20 || 0x09 <= c <= 0x0D }

  /** The two-byte one: U+00A0, the no-break space. */
  predicate IsSpace2(a: byte, b: byte) { a == 0xC2 && b == 0xA0 }

  /** The three-byte ones: U+1680, U+2000 to U+200A, U+2028, U+2029, U+202F, U+205F,
      U+3000 and U+FEFF. */
  predicate IsSpace3(a: byte, b: byte, c: byte) {
    || (a == 0xE1 && b == 0x9A && c == 0x80)
    || (a == 0xE2 && b == 0x80 && (0x80 <= c <= 0x8A || c == 0xA8 || c == 0xA9 || c == 0xAF))
    || (a == 0xE2 && b == 0x81 && c == 0x9F)
    || (a == 0xE3 && b == 0x80 && c == 0x80)
    || (a == 0xEF && b == 0xBB && c == 0xBF)
  }

  /** The length of the white-space character `t` starts with, or 0 when it starts with none. */
  function LeadingSpace(t: Text): (n: nat)
    ensures n <= 3 && n <= |t|
  {
    if |t| >= 1 && IsSpace1(t[0]) then 1
    else if |t| >= 2 && IsSpace2(t[0], t[1]) then 2
    else if |t| >= 3 && IsSpace3(t[0], t[1], t[2]) then 3
    else 0
  }

  /** The length of the white-space character `t` ends with, or 0 when it ends with none. */
  function TrailingSpace(t: Text): (n: nat)
    ensures n <= 3 && n <= |t|
  {
    var k := |t|;
    if k >= 1 && IsSpace1(t[k - 1]) then 1
    else if k >= 2 && IsSpace2(t[k - 2], t[k - 1]) then 2
    else if k >= 3 && IsSpace3(t[k - 3], t[k - 2], t[k - 1]) then 3
    else 0
  }

  /** `w` is the encoding of exactly one character `trim` removes. */
  predicate IsSpaceChar(w: Text) { |w| > 0 && LeadingSpace(w) == |w| }

  /** `w` is a run of white-space characters, read from the front. */
  predicate SpaceRun(w: Text)
    decreases |w|
  {
    |w| == 0 || (LeadingSpace(w) > 0 && SpaceRun(w[LeadingSpace(w)..]))
  }

  /** The character found at the end is one white-space character. */
  lemma TrailingSpaceIsChar(t: Text)
    requires TrailingSpace(t) > 0
    ensures IsSpaceChar(t[|t| - TrailingSpace(t)..])
  {
    var n := TrailingSpace(t);
    var w := t[|t| - n..];
    assert w[0] == t[|t| - n];
    if n >= 2 { assert w[1] == t[|t| - n + 1]; }
    if n == 3 { assert w[2] == t[|t| - 1]; }
  }

  /** What follows a text does not change the white-space character it starts with. */
  lemma LeadingSpaceExtends(x: Text, y: Text)
    requires LeadingSpace(x) > 0
    ensures LeadingSpace(x + y) == LeadingSpace(x)
  {
    var t := x + y;
    assert t[0] == x[0];
    if |x| >= 2 { assert t[1] == x[1]; }
    if |x| >= 3 { assert t[2] == x[2]; }
  }

  /** Following a run of white space by one more white-space character gives a run. */
  lemma {:induction false} SpaceRunSnoc(x: Text, w: Text)
    requires SpaceRun(x) && IsSpaceChar(w)
    ensures SpaceRun(x + w)
    decreases |x|
  {
    if |x| == 0 {
      assert x + w == w;
      assert w[|w|..] == [];
    } else {
      var n := LeadingSpace(x);
      LeadingSpaceExtends(x, w);
      SpaceRunSnoc(x[n..], w);
      assert (x + w)[n..] == x[n..] + w;
    }
  }

  function TrimStart(t: Text): (r: Text)
    ensures |r| <= |t| && r == t[|t| - |r|..]
    ensures LeadingSpace(r) == 0
    decreases |t|
  {
    var n := LeadingSpace(t);
    if n > 0 then TrimStart(t[n..]) else t
  }

  function TrimEnd(t: Text): (r: Text)
    ensures |r| <= |t| && r == t[..|r|]
    ensures TrailingSpace(r) == 0
    decreases |t|
  {
    var n := TrailingSpace(t);
    if n > 0 then TrimEnd(t[..|t| - n]) else t
  }

  /** What `TrimStart` removes is a run of white space. */
  lemma {:induction false} TrimStartDropsSpace(t: Text)
    ensures SpaceRun(t[..|t| - |TrimStart(t)|])
    decreases |t|
  {
    var n := LeadingSpace(t);
    if n > 0 {
      var u := t[n..];
      var r := TrimStart(u);
      assert TrimStart(t) == r;
      var m := |t| - |r|;
      assert SpaceRun(t[n..m]) by {
        TrimStartDropsSpace(u);
        SliceOfSuffix(t, n, m - n);
      }
      SpaceRunCons(t, m);
    }
  }

  /** A white-space character followed by a run of white space is a run. */
  lemma SpaceRunCons(t: Text, m: nat)
    requires 0 < LeadingSpace(t) <= m <= |t| && SpaceRun(t[LeadingSpace(t)..m])
    ensures SpaceRun(t[..m])
  {
    var n := LeadingSpace(t);
    assert t[..m][0] == t[0];
    if n >= 2 { assert t[..m][1] == t[1]; }
    if n == 3 { assert t[..m][2] == t[2]; }
    assert LeadingSpace(t[..m]) == n;
    assert t[..m][n..] == t[n..m];
  }

  /** What `TrimEnd` removes is a run of white space. */
  lemma {:induction false} TrimEndDropsSpace(t: Text)
    ensures SpaceRun(t[|TrimEnd(t)|..])
    decreases |t|
  {
    var n := TrailingSpace(t);
    if n > 0 {
      var u := t[..|t| - n];
      var r := TrimEnd(u);
      TrimEndDropsSpace(u);
      TrailingSpaceIsChar(t);
      SpaceRunSnoc(u[|r|..], t[|t| - n..]);
      assert t[|r|..] == u[|r|..] + t[|t| - n..];
    }
  }

  /** Removing characters from the end of a text that starts with no white space leaves
      one that starts with none. */
  lemma NoLeadingSpaceInPrefix(t: Text, m: nat)
    requires m <= |t| && LeadingSpace(t) == 0
    ensures LeadingSpace(t[..m]) == 0
  {
    if m >= 1 { assert t[..m][0] == t[0]; }
    if m >= 2 { assert t[..m][1] == t[1]; }
    if m >= 3 { assert t[..m][2] == t[2]; }
  }

  /** `t.trim()`. */
  function Trim(t: Text): (r: Text)
    ensures IsTrimmed(r) && |r| <= |t|
  {
    var s := TrimStart(t);
    NoLeadingSpaceInPrefix(s, |TrimEnd(s)|);
    TrimEnd(s)
  }

  /** The trim of `t` is the slice of `t` left after dropping white space at both ends. */
  lemma TrimIsSlice(t: Text)
    ensures exists i, j | 0 <= i <= j <= |t| ::
              && Trim(t) == t[i..j]
              && SpaceRun(t[..i])
              && SpaceRun(t[j..])
  {
    var i, j := TrimBounds(t);
  }

  lemma TrimBounds(t: Text) returns (i: nat, j: nat)
    ensures i <= j <= |t| && Trim(t) == t[i..j]
    ensures SpaceRun(t[..i]) && SpaceRun(t[j..])
  {
    var s := TrimStart(t);
    var r := TrimEnd(s);
    assert Trim(t) == r;
    i := |t| - |s|;
    j := i + |r|;
    SliceOfSuffix(t, i, |r|);
    assert SpaceRun(t[..i]) by { TrimStartDropsSpace(t); }
    assert SpaceRun(t[j..]) by {
      TrimEndDropsSpace(s);
      assert s[|r|..] == t[j..];
    }
  }

  lemma SliceOfSuffix(t: Text, i: nat, m: nat)
    requires i + m <= |t|
    ensures t[i..][..m] == t[i..i + m]
  {
  }

  /** Neither end is white space. */
  predicate IsTrimmed(t: Text) { LeadingSpace(t) == 0 && TrailingSpace(t) == 0 }

  /** Trimming is idempotent: Mongoose's `trim` setter may run on an already trimmed value. */
  lemma TrimIdempotent(t: Text)
    ensures Trim(Trim(t)) == Trim(t)
  {
    TrimOfTrimmed(Trim(t));
  }

  /** A trimmed text is its own trim. */
  lemma TrimOfTrimmed(t: Text)
    requires IsTrimmed(t)
    ensures Trim(t) == t
  {
    assert TrimStart(t) == t;
    assert TrimEnd(t) == t;
  }
}
