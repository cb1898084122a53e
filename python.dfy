/** The Python built-ins the converter relies on, with their Python 3
    semantics: `str.startswith`, `str.endswith`, `str.split` with an explicit
    separator, `str.strip`, `str.rfind`, list indexing (negative indices
    count from the end) and `max`. */
module Python {
  import opened Wrappers

  predicate StartsWith(s: string, prefix: string) {
    |prefix| <= |s| && s[..|prefix|] == prefix
  }

  predicate EndsWith(s: string, suffix: string) {
    |suffix| <= |s| && s[|s| - |suffix|..] == suffix
  }

  /** `pat` occurs in `s` starting at position `p`. */
  predicate OccursAt(s: string, pat: string, p: int) {
    0 <= p && p + |pat| <= |s| && s[p..p + |pat|] == pat
  }

  // ---------------------------------------------------------------------------
  // str.split(sep) and its inverse sep.join(pieces)
  // ---------------------------------------------------------------------------

  function Join(pieces: seq<string>, sep: string): string
    requires |pieces| > 0
  {
    if |pieces| == 1 then pieces[0] else pieces[0] + sep + Join(pieces[1..], sep)
  }

  /** `s.split(sep)` for a non-empty `sep`: cut at every occurrence of `sep`,
      scanning from the left, occurrences not overlapping. Python raises
      ValueError for an empty separator, so callers check that first. */
  function Split(s: string, sep: string): (pieces: seq<string>)
    requires |sep| > 0
    ensures |pieces| > 0
    ensures Join(pieces, sep) == s
    decreases |s|
  {
    if |s| < |sep| then [s]
    else if s[..|sep|] == sep then [""] + Split(s[|sep|..], sep)
    else
      var rest := Split(s[1..], sep);
      assert [s[0]] + Join(rest, sep) == s;
      [[s[0]] + rest[0]] + rest[1..]
  }

  /** No piece produced by `split` contains the separator. */
  lemma {:induction false} SplitPiecesFree(s: string, sep: string)
    requires |sep| > 0
    ensures forall k, p :: 0 <= k < |Split(s, sep)| ==> !OccursAt(Split(s, sep)[k], sep, p)
    decreases |s|
  {
    var pieces := Split(s, sep);
    if |s| < |sep| {
    } else if s[..|sep|] == sep {
      SplitPiecesFree(s[|sep|..], sep);
      var rest := Split(s[|sep|..], sep);
      assert pieces == [""] + rest;
      forall k, p | 0 <= k < |pieces| ensures !OccursAt(pieces[k], sep, p) {
        if k > 0 { assert pieces[k] == rest[k - 1]; }
      }
    } else {
      SplitPiecesFree(s[1..], sep);
      var rest := Split(s[1..], sep);
      var head := [s[0]] + rest[0];
      assert pieces == [head] + rest[1..];
      forall k, p | 0 <= k < |pieces| ensures !OccursAt(pieces[k], sep, p) {
        if k > 0 {
          assert pieces[k] == rest[k];
        } else if OccursAt(head, sep, p) {
          if p == 0 {
            // `s` begins with `head`, so it would begin with `sep`.
            JoinStartsWithFirst(pieces, sep);
            assert false;
          } else {
            assert rest[0][p - 1..p - 1 + |sep|] == head[p..p + |sep|];
            assert OccursAt(rest[0], sep, p - 1);
            assert false;
          }
        }
      }
    }
  }

  /** `split` cuts at the first occurrence of the separator, scanning from
      the left: no occurrence starts inside the first piece; a single piece
      means the separator does not occur at all; otherwise the first piece
      is followed by an occurrence and the remaining pieces are the split of
      what comes after it. With `Split` at both ends, this fixes the pieces
      uniquely, overlapping separators included. */
  lemma {:induction false} SplitFirstCut(s: string, sep: string)
    requires |sep| > 0
    ensures var ps := Split(s, sep);
            (forall p :: 0 <= p < |ps[0]| ==> !OccursAt(s, sep, p)) &&
            (|ps| == 1 ==> ps[0] == s && forall p :: !OccursAt(s, sep, p)) &&
            (|ps| > 1 ==> OccursAt(s, sep, |ps[0]|) && ps[1..] == Split(s[|ps[0]| + |sep|..], sep))
    decreases |s|
  {
    var ps := Split(s, sep);
    if |s| < |sep| {
    } else if s[..|sep|] == sep {
      assert ps[1..] == Split(s[|sep|..], sep);
    } else {
      var t := s[1..];
      var rest := Split(t, sep);
      SplitFirstCut(t, sep);
      assert ps == [[s[0]] + rest[0]] + rest[1..];
      forall p | 1 <= p {
        OccursShift(s, sep, p);
      }
      if |rest| == 1 {
        assert rest[0] == t;
        assert s == [s[0]] + t;
      } else {
        assert t[|rest[0]| + |sep|..] == s[|ps[0]| + |sep|..];
      }
    }
  }

  /** An occurrence past the first character is one in the tail, one
      position earlier. */
  lemma OccursShift(s: string, sep: string, p: int)
    requires s != [] && p >= 1
    ensures OccursAt(s, sep, p) <==> OccursAt(s[1..], sep, p - 1)
  {
    if p + |sep| <= |s| {
      var here, there := s[p..p + |sep|], s[1..][p - 1..p - 1 + |sep|];
      forall i | 0 <= i < |sep| ensures here[i] == there[i] {
        assert here[i] == s[p + i] == there[i];
      }
      assert here == there;
    }
  }

  lemma {:induction false} JoinStartsWithFirst(pieces: seq<string>, sep: string)
    requires |pieces| > 0
    ensures StartsWith(Join(pieces, sep), pieces[0])
  {
    if |pieces| > 1 {
      assert Join(pieces, sep) == pieces[0] + (sep + Join(pieces[1..], sep));
    }
  }

  lemma {:induction false} JoinEndsWithLast(pieces: seq<string>, sep: string)
    requires |pieces| > 0
    ensures EndsWith(Join(pieces, sep), pieces[|pieces| - 1])
  {
    if |pieces| > 1 {
      JoinEndsWithLast(pieces[1..], sep);
      assert Join(pieces, sep) == (pieces[0] + sep) + Join(pieces[1..], sep);
    }
  }

  // ---------------------------------------------------------------------------
  // str.strip() and str.strip(chars)
  // ---------------------------------------------------------------------------

  /** The characters Python 3's `str.isspace` accepts: what `strip()` with
      no argument removes. */
  predicate IsSpace(c: char) {
    '\t' <= c <= '\r' || '\U{001C}' <= c <= ' ' || c == '\U{0085}' || c == '\U{00A0}' ||
    c == '\U{1680}' || '\U{2000}' <= c <= '\U{200A}' || c == '\U{2028}' || c == '\U{2029}' ||
    c == '\U{202F}' || c == '\U{205F}' || c == '\U{3000}'
  }

  /** The same characters as a set, the form `Strip` takes. */
  const Whitespace: set<char> := set c: char | '\t' <= c <= '\U{3000}' && IsSpace(c)

  /** The set of characters of `chars`, as `strip(chars)` reads its argument. */
  function CharSet(chars: string): (d: set<char>)
    ensures forall c :: c in d <==> c in chars
  {
    set c | c in chars
  }

  /** `s.strip(chars)` with `chars` given as a set: drops characters of `d`
      from either end for as long as there is one. The result neither starts
      nor ends with a character of `d`. */
  function Strip(s: string, d: set<char>): (r: string)
    ensures r != [] ==> r[0] !in d && r[|r| - 1] !in d
    decreases |s|
  {
    if s != [] && s[0] in d then Strip(s[1..], d)
    else if s != [] && s[|s| - 1] in d then Strip(s[..|s| - 1], d)
    else s
  }

  /** `Strip` removes only characters of `d`: its result is a slice of `s`
      with nothing but characters of `d` on either side of it. */
  lemma {:induction false} StripRemovesOnlyStripped(s: string, d: set<char>)
    ensures exists i, j :: 0 <= i <= j <= |s| && Strip(s, d) == s[i..j] &&
                           (forall k :: 0 <= k < i ==> s[k] in d) &&
                           (forall k :: j <= k < |s| ==> s[k] in d)
    decreases |s|
  {
    if s != [] && s[0] in d {
      var t := s[1..];
      StripRemovesOnlyStripped(t, d);
      var i, j :| 0 <= i <= j <= |t| && Strip(t, d) == t[i..j] &&
                  (forall k :: 0 <= k < i ==> t[k] in d) &&
                  (forall k :: j <= k < |t| ==> t[k] in d);
      ShiftFront(s, t, d, i, j);
    } else if s != [] && s[|s| - 1] in d {
      var t := s[..|s| - 1];
      StripRemovesOnlyStripped(t, d);
      var i, j :| 0 <= i <= j <= |t| && Strip(t, d) == t[i..j] &&
                  (forall k :: 0 <= k < i ==> t[k] in d) &&
                  (forall k :: j <= k < |t| ==> t[k] in d);
      ShiftBack(s, t, d, i, j);
    } else {
      assert Strip(s, d) == s[0..|s|];
    }
  }

  lemma ShiftFront(s: string, t: string, d: set<char>, i: nat, j: nat)
    requires s != [] && s[0] in d && t == s[1..] && i <= j <= |t|
    requires forall k :: 0 <= k < i ==> t[k] in d
    requires forall k :: j <= k < |t| ==> t[k] in d
    ensures t[i..j] == s[i + 1..j + 1]
    ensures forall k :: 0 <= k < i + 1 ==> s[k] in d
    ensures forall k :: j + 1 <= k < |s| ==> s[k] in d
  {
    assert forall k :: 1 <= k < |s| ==> s[k] == t[k - 1];
  }

  lemma ShiftBack(s: string, t: string, d: set<char>, i: nat, j: nat)
    requires s != [] && s[|s| - 1] in d && t == s[..|s| - 1] && i <= j <= |t|
    requires forall k :: 0 <= k < i ==> t[k] in d
    requires forall k :: j <= k < |t| ==> t[k] in d
    ensures t[i..j] == s[i..j]
    ensures forall k :: 0 <= k < i ==> s[k] in d
    ensures forall k :: j <= k < |s| ==> s[k] in d
  {
    assert forall k :: 0 <= k < |t| ==> s[k] == t[k];
  }

  /** `s.strip()`. */
  function StripWhitespace(s: string): string {
    Strip(s, Whitespace)
  }

  /** `s.strip(chars)`. */
  function StripChars(s: string, chars: string): string {
    Strip(s, CharSet(chars))
  }

  // ---------------------------------------------------------------------------
  // str.rfind(sub)
  // ---------------------------------------------------------------------------

  /** The last position at or before `p` where `sub` occurs in `s`, or -1. */
  function LastOccurrence(s: string, sub: string, p: int): (r: int)
    ensures -1 <= r && (p >= -1 ==> r <= p)
    ensures r >= 0 ==> OccursAt(s, sub, r)
    ensures forall q :: r < q <= p ==> !OccursAt(s, sub, q)
    decreases p + 1
  {
    if p < 0 then -1
    else if OccursAt(s, sub, p) then p
    else LastOccurrence(s, sub, p - 1)
  }

  /** `s.rfind(sub)`: the highest position where `sub` occurs, or -1. */
  function RFind(s: string, sub: string): (r: int)
    ensures r == -1 || OccursAt(s, sub, r)
    ensures forall q :: OccursAt(s, sub, q) ==> q <= r
  {
    LastOccurrence(s, sub, |s| - |sub|)
  }

  // ---------------------------------------------------------------------------
  // list indexing and max()
  // ---------------------------------------------------------------------------

  predicate ValidIndex<T>(xs: seq<T>, i: int) {
    -|xs| <= i < |xs|
  }

  /** `xs[i]`, with a negative `i` counting from the end. */
  function At<T>(xs: seq<T>, i: int): T
    requires ValidIndex(xs, i)
  {
    if i < 0 then xs[|xs| + i] else xs[i]
  }

  /** `xs[i]`, or None where Python raises IndexError. */
  function Index<T>(xs: seq<T>, i: int): Option<T> {
    if ValidIndex(xs, i) then Some(At(xs, i)) else None
  }

  /** `max(xs)` on a non-empty list. */
  function Max(xs: seq<int>): (m: int)
    requires |xs| > 0
    ensures m in xs
    ensures forall j :: 0 <= j < |xs| ==> xs[j] <= m
  {
    if |xs| == 1 then xs[0]
    else
      var m := Max(xs[1..]);
      assert forall j :: 1 <= j < |xs| ==> xs[j] == xs[1..][j - 1];
      if xs[0] > m then xs[0] else m
  }
}
