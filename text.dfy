/** Character and string helpers behind the Python string methods the actions use:
    `str.lower`, `str.strip` and `str.replace`. Characters are Unicode code points;
    case mapping is modelled for ASCII and Latin-1 letters, which cover Spanish. */
module Text {

  /** The digits the number scanner's `\d` matches (ASCII only). */
  predicate IsDigit(c: char) {
    '0' <= c <= '9'
  }

  /** The characters `str.strip()` removes: those for which `str.isspace()` holds. */
  predicate IsSpace(c: char) {
    || c == ' '
    || '\t' <= c <= '\r'
    || '\U{1C}' <= c <= '\U{1F}'
    || c == '\U{85}' || c == '\U{A0}' || c == '\U{1680}'
    || '\U{2000}' <= c <= '\U{200A}'
    || c == '\U{2028}' || c == '\U{2029}' || c == '\U{202F}' || c == '\U{205F}' || c == '\U{3000}'
  }

  /** The string obtained by applying `f` to every character of `s`. */
  function MapChars(f: char -> char, s: string): (r: string)
    ensures |r| == |s|
    ensures forall i :: 0 <= i < |s| ==> r[i] == f(s[i])
  {
    seq(|s|, i requires 0 <= i < |s| => f(s[i]))
  }

  /** `str.lower` on one character: ASCII capitals and the Latin-1 capitals
      (À to Þ, except the multiplication sign) move 32 code points up. */
  function LowerChar(c: char): (d: char)
    ensures IsSpace(d) == IsSpace(c)
    ensures IsDigit(d) == IsDigit(c)
    ensures 'A' <= d <= 'Z' ==> false
    ensures 'A' <= c <= 'Z' ==> d as int == c as int + 32
    ensures '\U{C0}' <= c <= '\U{DE}' && c != '\U{D7}' ==> d as int == c as int + 32
    ensures !('A' <= c <= 'Z') && !('\U{C0}' <= c <= '\U{DE}' && c != '\U{D7}') ==> d == c
  {
    if 'A' <= c <= 'Z' || ('\U{C0}' <= c <= '\U{DE}' && c != '\U{D7}') then
      (c as int + 32) as char
    else
      c
  }

  /** `str.lower`: the result has the length of `s`, keeps white space and digits where
      they were, and holds no ASCII capital. Each ASCII or Latin-1 capital becomes its small
      letter, 32 code points up, and every other character stays. */
  function Lower(s: string): (r: string)
    ensures |r| == |s|
    ensures forall i :: 0 <= i < |s| ==> IsSpace(r[i]) == IsSpace(s[i]) && IsDigit(r[i]) == IsDigit(s[i])
    ensures forall c :: c in r ==> !('A' <= c <= 'Z')
    ensures forall i :: 0 <= i < |s| && 'A' <= s[i] <= 'Z' ==> r[i] as int == s[i] as int + 32
    ensures forall i :: 0 <= i < |s| && '\U{C0}' <= s[i] <= '\U{DE}' && s[i] != '\U{D7}' ==> r[i] as int == s[i] as int + 32
    ensures forall i :: 0 <= i < |s| && !('A' <= s[i] <= 'Z') && !('\U{C0}' <= s[i] <= '\U{DE}' && s[i] != '\U{D7}') ==> r[i] == s[i]
  {
    MapChars(LowerChar, s)
  }

  /** `str.lstrip()`: drops the leading white space. */
  function TrimLeft(s: string): (r: string)
    ensures |r| <= |s| && r == s[|s| - |r|..]
    ensures forall k :: 0 <= k < |s| - |r| ==> IsSpace(s[k])
    ensures r == [] || !IsSpace(r[0])
  {
    if |s| > 0 && IsSpace(s[0]) then TrimLeft(s[1..]) else s
  }

  /** `str.rstrip()`: drops the trailing white space. */
  function TrimRight(s: string): (r: string)
    ensures |r| <= |s| && r == s[..|r|]
    ensures forall k :: |r| <= k < |s| ==> IsSpace(s[k])
    ensures r == [] || !IsSpace(r[|r| - 1])
  {
    if |s| > 0 && IsSpace(s[|s| - 1]) then TrimRight(s[..|s| - 1]) else s
  }

  /** The length of the run of white space that starts `s`. */
  function LeadingSpaces(s: string): (n: nat)
    ensures n <= |s|
    ensures forall k :: 0 <= k < n ==> IsSpace(s[k])
    ensures n == |s| || !IsSpace(s[n])
  {
    |s| - |TrimLeft(s)|
  }

  /** `str.strip()`: the result neither starts nor ends with white space, and it is
      empty exactly when `s` is all white space. StripIsMiddle shows that it is the
      slice of `s` left once the white space on either side is cut off. */
  function Strip(s: string): (r: string)
    ensures |r| <= |s|
    ensures r == [] || (!IsSpace(r[0]) && !IsSpace(r[|r| - 1]))
    ensures r == [] <==> forall k :: 0 <= k < |s| ==> IsSpace(s[k])
  {
    var t := TrimLeft(s);
    var r := TrimRight(t);
    if r == [] then
      r
    else
      assert r[0] == t[0];
      r
  }

  /** `str.strip()` keeps a middle slice of `s`: it starts after the leading run of
      white space and only white space follows it. */
  lemma StripIsMiddle(s: string)
    ensures LeadingSpaces(s) + |Strip(s)| <= |s|
    ensures Strip(s) == s[LeadingSpaces(s)..LeadingSpaces(s) + |Strip(s)|]
    ensures forall k :: LeadingSpaces(s) + |Strip(s)| <= k < |s| ==> IsSpace(s[k])
  {
    StripSlice(s);
    StripTrailing(s);
  }

  /** The slice part of StripIsMiddle. */
  lemma StripSlice(s: string)
    ensures LeadingSpaces(s) + |Strip(s)| <= |s|
    ensures Strip(s) == s[LeadingSpaces(s)..LeadingSpaces(s) + |Strip(s)|]
  {
    StripOfTrimLeft(s);
    LeadingIs(s);
    PrefixOfSuffix(s, TrimLeft(s), Strip(s), LeadingSpaces(s));
  }

  /** The trailing part of StripIsMiddle. */
  lemma StripTrailing(s: string)
    ensures forall k :: LeadingSpaces(s) + |Strip(s)| <= k < |s| ==> IsSpace(s[k])
  {
    StripOfTrimLeft(s);
    PrefixOfSuffix(s, TrimLeft(s), Strip(s), LeadingSpaces(s));
  }

  /** `str.strip()` is `str.rstrip()` of `str.lstrip()`, and `str.lstrip()` keeps the
      suffix after the leading white space. */
  lemma StripOfTrimLeft(s: string)
    ensures TrimLeft(s) == s[LeadingSpaces(s)..]
    ensures |Strip(s)| <= |TrimLeft(s)| && Strip(s) == TrimLeft(s)[..|Strip(s)|]
    ensures forall k :: |Strip(s)| <= k < |TrimLeft(s)| ==> IsSpace(TrimLeft(s)[k])
  {
    StripIsTrims(s);
  }

  /** `str.strip()` is `str.rstrip()` of `str.lstrip()`. */
  lemma StripIsTrims(s: string)
    ensures Strip(s) == TrimRight(TrimLeft(s))
  {
  }

  /** The leading white space is what `str.lstrip()` drops. */
  lemma LeadingIs(s: string)
    ensures LeadingSpaces(s) == |s| - |TrimLeft(s)|
  {
  }

  /** A prefix `r` of the suffix `t` of `s` that starts at `i` is a slice of `s`;
      what follows `r` in `t` follows it in `s`. */
  lemma PrefixOfSuffix(s: string, t: string, r: string, i: int)
    requires 0 <= i <= |s| && t == s[i..]
    requires |r| <= |t| && r == t[..|r|]
    requires forall k :: |r| <= k < |t| ==> IsSpace(t[k])
    ensures i + |r| <= |s|
    ensures r == s[i..i + |r|]
    ensures forall k :: i + |r| <= k < |s| ==> IsSpace(s[k])
  {
    forall k | i + |r| <= k < |s| ensures IsSpace(s[k]) {
      assert s[k] == t[k - i];
    }
  }

  /** Stripping only removes characters. */
  lemma StripKeeps(s: string)
    ensures forall c :: c in Strip(s) ==> c in s
  {
    var t := TrimLeft(s);
    assert forall c :: c in TrimRight(t) ==> c in t;
  }

  /** Stripping a stripped string changes nothing. */
  lemma StripIdempotent(s: string)
    ensures Strip(Strip(s)) == Strip(s)
  {
    var r := Strip(s);
    assert TrimLeft(r) == r;
    assert TrimRight(r) == r;
  }

  /** `str.replace(pat, rep)`: every non-overlapping occurrence of `pat`, found from
      left to right, is replaced by `rep`. Characters that are not part of `pat` survive,
      and every character of the result comes from `s` or from `rep`. */
  function ReplaceAll(s: string, pat: string, rep: string): (r: string)
    requires pat != []
    ensures forall c :: c in s && c !in pat ==> c in r
    ensures forall c :: c in r ==> c in s || c in rep
    decreases |s|
  {
    if |s| < |pat| then
      s
    else if s[..|pat|] == pat then
      assert s == pat + s[|pat|..];
      rep + ReplaceAll(s[|pat|..], pat, rep)
    else
      assert s == [s[0]] + s[1..];
      [s[0]] + ReplaceAll(s[1..], pat, rep)
  }

  /** `pat` occurs in `s` at index `k`. */
  predicate OccursAt(s: string, pat: string, k: int) {
    0 <= k && k + |pat| <= |s| && s[k..k + |pat|] == pat
  }

  /** An occurrence in `s[1..]` is an occurrence in `s`, one index later. */
  lemma OccursInTail(s: string, pat: string, k: int)
    requires s != [] && OccursAt(s[1..], pat, k)
    ensures OccursAt(s, pat, k + 1)
  {
    assert s[1..][k..k + |pat|] == s[k + 1..k + 1 + |pat|];
  }

  /** `pat` does not occur at `k` when some character there differs from it. */
  lemma Mismatch(s: string, pat: string, k: int, j: int)
    requires 0 <= j < |pat|
    requires k < 0 || k + |pat| > |s| || s[k + j] != pat[j]
    ensures !OccursAt(s, pat, k)
  {
    if 0 <= k && k + |pat| <= |s| {
      assert s[k..k + |pat|][j] == s[k + j];
    }
  }

  /** Where `pat` does not occur, `str.replace` leaves the text as it is. */
  lemma {:induction false} ReplaceAllAbsent(s: string, pat: string, rep: string)
    requires pat != []
    requires forall k :: !OccursAt(s, pat, k)
    ensures ReplaceAll(s, pat, rep) == s
    decreases |s|
  {
    if |s| >= |pat| {
      assert !OccursAt(s, pat, 0);
      forall k ensures !OccursAt(s[1..], pat, k) {
        if OccursAt(s[1..], pat, k) {
          OccursInTail(s, pat, k);
        }
      }
      ReplaceAllAbsent(s[1..], pat, rep);
    }
  }

  /** `str.replace` rewrites the first occurrence of `pat`: the text before it is kept,
      the occurrence becomes `rep`, and the rest is rewritten in turn. */
  lemma {:induction false} ReplaceAllFirst(a: string, pat: string, rep: string, b: string)
    requires pat != []
    requires forall k :: 0 <= k < |a| ==> !OccursAt(a + pat + b, pat, k)
    ensures ReplaceAll(a + pat + b, pat, rep) == a + rep + ReplaceAll(b, pat, rep)
    decreases |a|
  {
    var s := a + pat + b;
    if a == [] {
      assert s == pat + b;
      assert s[..|pat|] == pat;
      assert s[|pat|..] == b;
    } else {
      var tail := a[1..];
      assert s[..|pat|] != pat by {
        assert !OccursAt(s, pat, 0);
      }
      assert ReplaceAll(s, pat, rep) == [s[0]] + ReplaceAll(s[1..], pat, rep);
      assert s[1..] == tail + pat + b;
      forall k | 0 <= k < |tail| ensures !OccursAt(tail + pat + b, pat, k) {
        if OccursAt(tail + pat + b, pat, k) {
          OccursInTail(s, pat, k);
        }
      }
      ReplaceAllFirst(tail, pat, rep, b);
      assert a == [s[0]] + tail;
    }
  }

  /** The string `s` with every `a` turned into `b`. */
  function ReplaceChar(s: string, a: char, b: char): (r: string)
    ensures |r| == |s|
    ensures forall i :: 0 <= i < |s| ==> r[i] == if s[i] == a then b else s[i]
  {
    seq(|s|, i requires 0 <= i < |s| => if s[i] == a then b else s[i])
  }

  /** Replacing a one-character pattern is a character-wise substitution. */
  lemma {:induction false} ReplaceOneChar(s: string, a: char, b: char)
    ensures ReplaceAll(s, [a], [b]) == ReplaceChar(s, a, b)
    decreases |s|
  {
    if |s| > 0 {
      ReplaceOneChar(s[1..], a, b);
      assert ReplaceChar(s, a, b) == ReplaceChar(s[..1], a, b) + ReplaceChar(s[1..], a, b);
    }
  }

  /** `str.lstrip` commutes with a character map that keeps white space apart. */
  lemma {:induction false} TrimLeftMap(f: char -> char, s: string)
    requires forall c :: IsSpace(f(c)) == IsSpace(c)
    ensures TrimLeft(MapChars(f, s)) == MapChars(f, TrimLeft(s))
    decreases |s|
  {
    if |s| > 0 && IsSpace(s[0]) {
      assert MapChars(f, s)[1..] == MapChars(f, s[1..]);
      TrimLeftMap(f, s[1..]);
    }
  }

  /** `str.rstrip` commutes with a character map that keeps white space apart. */
  lemma {:induction false} TrimRightMap(f: char -> char, s: string)
    requires forall c :: IsSpace(f(c)) == IsSpace(c)
    ensures TrimRight(MapChars(f, s)) == MapChars(f, TrimRight(s))
    decreases |s|
  {
    if |s| > 0 && IsSpace(s[|s| - 1]) {
      assert MapChars(f, s)[..|s| - 1] == MapChars(f, s[..|s| - 1]);
      TrimRightMap(f, s[..|s| - 1]);
    }
  }

  /** `str.strip` commutes with a character map that keeps white space apart. */
  lemma StripMap(f: char -> char, s: string)
    requires forall c :: IsSpace(f(c)) == IsSpace(c)
    ensures Strip(MapChars(f, s)) == MapChars(f, Strip(s))
  {
    TrimLeftMap(f, s);
    TrimRightMap(f, TrimLeft(s));
  }

  /** Lowercasing leaves a string of lower-case characters as it is. */
  lemma LowerFixes(s: string)
    requires forall i :: 0 <= i < |s| ==> LowerChar(s[i]) == s[i]
    ensures Lower(s) == s
  {
  }

  /** Stripping leaves a string without boundary white space as it is. */
  lemma StripFixes(s: string)
    requires s != [] && !IsSpace(s[0]) && !IsSpace(s[|s| - 1])
    ensures Strip(s) == s
  {
    assert TrimLeft(s) == s;
    assert TrimRight(s) == s;
  }
}
