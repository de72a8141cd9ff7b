/** String operations of the JavaScript runtime that the core relies on:
    `String.prototype.trim` (applied by the `trim: true` schema option) and
    `String.prototype.split` with a one-character separator (used to take the
    token out of an `Authorization` header). */
module Text {

  /** The characters `trim` removes: the WhiteSpace and LineTerminator code
      points of the ECMAScript grammar (TAB, LF, VT, FF, CR, SPACE, NBSP,
      OGHAM SPACE MARK, EN QUAD..HAIR SPACE, LS, PS, NNBSP, MMSP,
      IDEOGRAPHIC SPACE and the byte order mark). */
  predicate IsSpace(c: char) {
    var n := c as int;
    || (0x09 <= n <= 0x0D)
    || n == 0x20
    || n == 0xA0
    || n == 0x1680
    || (0x2000 <= n <= 0x200A)
    || n == 0x2028
    || n == 0x2029
    || n == 0x202F
    || n == 0x205F
    || n == 0x3000
    || n == 0xFEFF
  }

  predicate AllSpace(s: string) {
    forall i :: 0 <= i < |s| ==> IsSpace(s[i])
  }

  /** `s` neither starts nor ends with white space. */
  predicate Trimmed(s: string) {
    s == [] || (!IsSpace(s[0]) && !IsSpace(s[|s| - 1]))
  }

  /** The length of the white-space prefix of `s`. */
  function LeadingSpace(s: string): (k: nat)
    ensures k <= |s|
    ensures AllSpace(s[..k])
    ensures k == |s| || !IsSpace(s[k])
  {
    if |s| == 0 || !IsSpace(s[0]) then 0
    else
      var k := LeadingSpace(s[1..]);
      assert s[..k + 1] == [s[0]] + s[1..][..k];
      1 + k
  }

  /** The length of the white-space suffix of `s`. */
  function TrailingSpace(s: string): (k: nat)
    ensures k <= |s|
    ensures AllSpace(s[|s| - k..])
    ensures k == |s| || !IsSpace(s[|s| - 1 - k])
  {
    if |s| == 0 || !IsSpace(s[|s| - 1]) then 0
    else
      var init := s[..|s| - 1];
      var k := TrailingSpace(init);
      assert s[|s| - (k + 1)..] == init[|init| - k..] + [s[|s| - 1]];
      1 + k
  }

  /** `s` with its leading and trailing white space removed. The result is the
      slice of `s` between two all-white-space margins, and has no white-space
      margin of its own. */
  function Trim(s: string): (r: string)
    ensures Trimmed(r)
    ensures exists i :: 0 <= i <= i + |r| <= |s| && r == s[i..i + |r|]
                        && AllSpace(s[..i]) && AllSpace(s[i + |r|..])
    ensures r == [] <==> AllSpace(s)
  {
    var lo := LeadingSpace(s);
    var t := s[lo..];
    var k := TrailingSpace(t);
    var r := t[..|t| - k];
    assert r == s[lo..lo + |r|];
    assert s[lo + |r|..] == t[|t| - k..];
    assert AllSpace(s[..lo]) && AllSpace(s[lo + |r|..]);
    assert Trimmed(r) by {
      if r != [] {
        assert r[0] == s[lo];
        assert r[|r| - 1] == t[|t| - 1 - k];
      }
    }
    assert r == [] ==> AllSpace(s) by {
      if r == [] {
        assert s == s[..lo] + t[|t| - k..];
      }
    }
    assert r != [] ==> !AllSpace(s) by {
      if r != [] {
        assert s[lo] == r[0];
      }
    }
    r
  }

  /** Trimming a string without white-space margins returns it unchanged. */
  lemma TrimOfTrimmed(s: string)
    requires Trimmed(s)
    ensures Trim(s) == s
  {
    assert LeadingSpace(s) == 0;
    assert s[0..] == s;
  }

  /** Trimming twice is trimming once. */
  lemma TrimIdempotent(s: string)
    ensures Trim(Trim(s)) == Trim(s)
  {
    TrimOfTrimmed(Trim(s));
  }

  /** The first index of `c` in `s`. */
  function IndexOf(s: string, c: char): (i: nat)
    requires c in s
    ensures i < |s| && s[i] == c
    ensures c !in s[..i]
  {
    if s[0] == c then 0
    else
      var i := IndexOf(s[1..], c);
      assert s[..i + 1] == [s[0]] + s[1..][..i];
      1 + i
  }

  /** The parts joined back together with `sep` between consecutive parts. */
  function Join(parts: seq<string>, sep: char): string {
    if |parts| == 0 then []
    else if |parts| == 1 then parts[0]
    else parts[0] + [sep] + Join(parts[1..], sep)
  }

  /** `s.split(sep)`: the maximal runs of `s` between occurrences of `sep`.
      There is always at least one part, and joining the parts with `sep`
      gives `s` back. */
  function Split(s: string, sep: char): (parts: seq<string>)
    ensures |parts| >= 1
    ensures forall i :: 0 <= i < |parts| ==> sep !in parts[i]
    ensures Join(parts, sep) == s
    decreases |s|
  {
    if sep !in s then [s]
    else
      var i := IndexOf(s, sep);
      var rest := Split(s[i + 1..], sep);
      assert s == s[..i] + [sep] + s[i + 1..];
      [s[..i]] + rest
  }

  /** Splitting a join of separator-free parts recovers the parts. */
  lemma {:induction false} SplitJoin(parts: seq<string>, sep: char)
    requires |parts| >= 1
    requires forall i :: 0 <= i < |parts| ==> sep !in parts[i]
    ensures Split(Join(parts, sep), sep) == parts
  {
    if |parts| == 1 {
      assert Join(parts, sep) == parts[0];
    } else {
      var s := Join(parts, sep);
      var tail := parts[1..];
      assert s == parts[0] + [sep] + Join(tail, sep);
      assert sep in s by {
        assert s[|parts[0]|] == sep;
      }
      var i := IndexOf(s, sep);
      assert s[..|parts[0]|] == parts[0];
      assert i == |parts[0]|;
      assert s[..i] == parts[0];
      assert s[i + 1..] == Join(tail, sep);
      SplitJoin(tail, sep);
      assert parts == [parts[0]] + tail;
    }
  }
}
