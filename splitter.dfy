/** The frame tokenizer: `cleaned.split(/~m~[0-9]{1,}~m~/g)`.

    The scan works on absolute indices into one string, as the regular
    expression engine does: `MatchAt(s, i)` is the pattern anchored at index
    `i`, `FirstMatch(s, from)` is the leftmost match at or after `from`, and
    `SplitFrom(s, from)` cuts the rest of the string at successive leftmost
    matches, keeping the pieces between them. The digits of a delimiter are
    never compared with the length of what follows it. */
module Splitter {
  import opened Json
  import opened Decimal

  /** `~m~` starts at index `i` of `s`. */
  predicate TagAt(s: string, i: nat) {
    i + 3 <= |s| && s[i] == '~' && s[i + 1] == 'm' && s[i + 2] == '~'
  }

  /** The whole of `d` matches `~m~[0-9]{1,}~m~`. */
  predicate IsDelim(d: string) {
    |d| >= 7 && TagAt(d, 0) && TagAt(d, |d| - 3) && AllDigits(d[3..|d| - 3])
  }

  /** A delimiter is exactly `~m~`, a non-empty run of digits, `~m~`. */
  lemma {:induction false} DelimShape(d: string)
    ensures IsDelim(d) <==> |d| >= 7 && d == "~m~" + d[3..|d| - 3] + "~m~" && AllDigits(d[3..|d| - 3])
  {
    if |d| >= 7 {
      var w := "~m~" + d[3..|d| - 3] + "~m~";
      assert |w| == |d|;
      if TagAt(d, 0) && TagAt(d, |d| - 3) {
        assert forall m | 0 <= m < |d| :: w[m] == d[m];
      }
      if d == w {
        assert d[|d| - 3] == '~' && d[|d| - 2] == 'm' && d[|d| - 1] == '~';
      }
    }
  }

  /** A slice of a slice is a slice of the original. */
  lemma {:induction false} SliceOfSlice(s: string, a: nat, b: nat, lo: nat, hi: nat)
    requires a <= b <= |s| && lo <= hi <= b - a
    ensures s[a..b][lo..hi] == s[a + lo..a + hi]
  {
    var t := s[a..b];
    assert forall m | 0 <= m < |t| :: t[m] == s[a + m];
  }

  /** A slice behind the prefix `a` of `a + t` is a slice of `t`. */
  lemma {:induction false} SliceOfAppend(a: string, t: string, lo: nat, hi: nat)
    requires lo <= hi <= |t|
    ensures (a + t)[|a| + lo..|a| + hi] == t[lo..hi]
  {
    var s := a + t;
    assert forall m | 0 <= m < |t| :: s[|a| + m] == t[m];
  }

  /** The prefix of `a + t` that ends inside `t`. */
  lemma {:induction false} PrefixOfAppend(a: string, t: string, hi: nat)
    requires hi <= |t|
    ensures (a + t)[0..|a| + hi] == a + t[0..hi]
  {
    var s := a + t;
    assert forall m | 0 <= m < |a| :: s[m] == a[m];
    assert forall m | 0 <= m < |t| :: s[|a| + m] == t[m];
  }

  // ---------------------------------------------------------------------
  // The pattern, anchored at one index
  // ---------------------------------------------------------------------

  /** The length of the run of digits starting at index `j` (`[0-9]{1,}` is greedy). */
  function DigitRun(s: string, j: nat): (k: nat)
    requires j <= |s|
    ensures j + k <= |s|
    ensures j + k < |s| ==> !IsDigit(s[j + k])
    decreases |s| - j
  {
    if j < |s| && IsDigit(s[j]) then 1 + DigitRun(s, j + 1) else 0
  }

  /** The run is all digits and is followed by a non-digit or the end. */
  lemma {:induction false} DigitRunMaximal(s: string, j: nat)
    requires j <= |s|
    ensures forall m | j <= m < j + DigitRun(s, j) :: IsDigit(s[m])
    ensures j + DigitRun(s, j) < |s| ==> !IsDigit(s[j + DigitRun(s, j)])
    decreases |s| - j
  {
    if j < |s| && IsDigit(s[j]) {
      DigitRunMaximal(s, j + 1);
    }
  }

  /** A maximal block of digits is the run: there is only one. */
  lemma {:induction false} DigitRunUnique(s: string, j: nat, k: nat)
    requires j + k <= |s|
    requires forall m | j <= m < j + k :: IsDigit(s[m])
    requires j + k < |s| ==> !IsDigit(s[j + k])
    ensures DigitRun(s, j) == k
  {
    DigitRunMaximal(s, j);
  }

  /** The length of the delimiter match anchored at index `i` of `s`, if any.
      Backtracking into the digit run cannot help, since a shorter run is
      followed by a digit rather than `~`. */
  function MatchAt(s: string, i: nat): (r: Option<nat>)
    ensures r.Some? ==> 7 <= r.value && i + r.value <= |s|
  {
    if TagAt(s, i) then
      var k := DigitRun(s, i + 3);
      if k >= 1 && TagAt(s, i + 3 + k) then Some(6 + k) else None
    else None
  }

  /** The digits of a slice are digits of the string. */
  lemma {:induction false} DigitsOfSlice(s: string, a: nat, b: nat)
    requires a <= b <= |s| && AllDigits(s[a..b])
    ensures forall m | a <= m < b :: IsDigit(s[m])
  {
    forall m | a <= m < b ensures IsDigit(s[m]) {
      assert s[m] == s[a..b][m - a];
    }
  }

  /** Digits of the string make a slice of digits. */
  lemma {:induction false} SliceDigits(s: string, a: nat, b: nat)
    requires a <= b <= |s| && forall m | a <= m < b :: IsDigit(s[m])
    ensures AllDigits(s[a..b])
  {
    forall m | 0 <= m < b - a ensures IsDigit(s[a..b][m]) {
      assert s[a..b][m] == s[a + m];
    }
  }

  /** A match the scanner reports is a delimiter. */
  lemma {:induction false} MatchAtIsDelim(s: string, i: nat, n: nat)
    requires MatchAt(s, i) == Some(n)
    ensures i + n <= |s| && IsDelim(s[i..i + n])
  {
    DigitRunMaximal(s, i + 3);
    assert i + n - 3 == i + 3 + DigitRun(s, i + 3);
    SliceDigits(s, i + 3, i + n - 3);
    var d := s[i..i + n];
    assert d[0] == s[i] && d[1] == s[i + 1] && d[2] == s[i + 2];
    assert d[n - 3] == s[i + n - 3] && d[n - 2] == s[i + n - 2] && d[n - 1] == s[i + n - 1];
    SliceOfSlice(s, i, i + n, 3, n - 3);
    assert d[3..|d| - 3] == s[i + 3..i + n - 3];
  }

  /** A delimiter is reported by the scanner, with its whole length. */
  lemma {:induction false} DelimIsMatchAt(s: string, i: nat, n: nat)
    requires i + n <= |s| && IsDelim(s[i..i + n])
    ensures MatchAt(s, i) == Some(n)
  {
    var d := s[i..i + n];
    assert d[0] == s[i] && d[1] == s[i + 1] && d[2] == s[i + 2];
    assert d[n - 3] == s[i + n - 3] && d[n - 2] == s[i + n - 2] && d[n - 1] == s[i + n - 1];
    SliceOfSlice(s, i, i + n, 3, n - 3);
    DigitsOfSlice(s, i + 3, i + n - 3);
    DigitRunUnique(s, i + 3, n - 6);
  }

  /** The scanner agrees with the pattern: it reports a match of length `n`
      at `i` exactly when `s[i..i + n]` is a delimiter. */
  lemma {:induction false} MatchAtIffDelim(s: string, i: nat, n: nat)
    ensures MatchAt(s, i) == Some(n) <==> i + n <= |s| && IsDelim(s[i..i + n])
  {
    if MatchAt(s, i) == Some(n) {
      MatchAtIsDelim(s, i, n);
    }
    if i + n <= |s| && IsDelim(s[i..i + n]) {
      DelimIsMatchAt(s, i, n);
    }
  }

  /** A match inside `s[a..b]` is a match of `s` at the same place. */
  lemma {:induction false} MatchAtWithin(s: string, a: nat, b: nat, k: nat)
    requires a <= b <= |s| && MatchAt(s[a..b], k).Some?
    ensures MatchAt(s, a + k) == MatchAt(s[a..b], k)
  {
    var t := s[a..b];
    var n := MatchAt(t, k).value;
    MatchAtIffDelim(t, k, n);
    SliceOfSlice(s, a, b, k, k + n);
    MatchAtIffDelim(s, a + k, n);
  }

  /** `t` sits in `s` from index `k` to the end: every stretch of `t` is
      the same stretch of `s`, `k` characters further right. */
  ghost predicate Shifted(s: string, t: string, k: nat) {
    && |s| == k + |t|
    && forall lo: nat, hi: nat | lo <= hi <= |t| :: s[k + lo..k + hi] == t[lo..hi]
  }

  /** `t` sits at the end of `a + t`, behind `a`. */
  lemma {:induction false} ShiftedAppend(a: string, t: string)
    ensures Shifted(a + t, t, |a|)
  {
    forall lo: nat, hi: nat | lo <= hi <= |t| ensures (a + t)[|a| + lo..|a| + hi] == t[lo..hi] {
      SliceOfAppend(a, t, lo, hi);
    }
  }

  /** Where `t` sits in `s`, the matches of `s` are those of `t`, shifted. */
  lemma {:induction false} ShiftedMatchAt(s: string, t: string, k: nat, j: nat)
    requires Shifted(s, t, k) && j <= |t|
    ensures MatchAt(s, k + j) == MatchAt(t, j)
  {
    if MatchAt(t, j).Some? {
      var n := MatchAt(t, j).value;
      MatchAtIffDelim(t, j, n);
      assert s[k + j..k + (j + n)] == t[j..j + n];
      MatchAtIffDelim(s, k + j, n);
    }
    if MatchAt(s, k + j).Some? {
      var n := MatchAt(s, k + j).value;
      MatchAtIffDelim(s, k + j, n);
      assert s[k + j..k + (j + n)] == t[j..j + n];
      MatchAtIffDelim(t, j, n);
    }
  }

  // ---------------------------------------------------------------------
  // The leftmost match
  // ---------------------------------------------------------------------

  /** No match starts at any index in `[lo, hi)`. */
  predicate NoMatchIn(s: string, lo: nat, hi: nat) {
    forall k | lo <= k < hi :: MatchAt(s, k).None?
  }

  /** No match starts anywhere in `s`. */
  predicate DelimFree(s: string) {
    NoMatchIn(s, 0, |s|)
  }

  /** The leftmost match at or after index `from`, as (index, length). */
  function FirstMatch(s: string, from: nat): (r: Option<(nat, nat)>)
    requires from <= |s|
    ensures r.Some? ==> from <= r.value.0 && 7 <= r.value.1 && r.value.0 + r.value.1 <= |s|
    decreases |s| - from
  {
    if from == |s| then None
    else if MatchAt(s, from).Some? then Some((from, MatchAt(s, from).value))
    else FirstMatch(s, from + 1)
  }

  /** What `FirstMatch` reports is a match, no match starts before it, and
      it reports none exactly when no match starts at or after `from`. */
  lemma {:induction false} FirstMatchLeftmost(s: string, from: nat)
    requires from <= |s|
    ensures FirstMatch(s, from).Some? ==>
              MatchAt(s, FirstMatch(s, from).value.0) == Some(FirstMatch(s, from).value.1)
    ensures FirstMatch(s, from).Some? ==> NoMatchIn(s, from, FirstMatch(s, from).value.0)
    ensures FirstMatch(s, from).None? <==> NoMatchIn(s, from, |s|)
    decreases |s| - from
  {
    if from < |s| && MatchAt(s, from).None? {
      FirstMatchLeftmost(s, from + 1);
    }
  }

  /** Indices without a match can be skipped. */
  lemma {:induction false} FirstMatchSkip(s: string, from: nat, to: nat)
    requires from <= to <= |s| && NoMatchIn(s, from, to)
    ensures FirstMatch(s, from) == FirstMatch(s, to)
    decreases |s| - from
  {
    if from < to {
      FirstMatchSkip(s, from + 1, to);
    }
  }

  /** A match with no match before it, from `from` on, is the leftmost one. */
  lemma {:induction false} FirstMatchAt(s: string, from: nat, i: nat, n: nat)
    requires from <= i <= |s| && NoMatchIn(s, from, i) && MatchAt(s, i) == Some(n)
    ensures FirstMatch(s, from) == Some((i, n))
  {
    FirstMatchSkip(s, from, i);
  }

  /** A match reported `k` characters further right. */
  function Shift(r: Option<(nat, nat)>, k: nat): Option<(nat, nat)>
  {
    if r.None? then None else Some((k + r.value.0, r.value.1))
  }

  /** Where `t` sits in `s`, the leftmost match in `s` is that of `t`, shifted. */
  lemma {:induction false} ShiftedFirstMatch(s: string, t: string, k: nat, from: nat)
    requires Shifted(s, t, k) && from <= |t|
    ensures FirstMatch(s, k + from) == Shift(FirstMatch(t, from), k)
    decreases |t| - from
  {
    ShiftedMatchAt(s, t, k, from);
    if from < |t| && MatchAt(t, from).None? {
      ShiftedFirstMatch(s, t, k, from + 1);
    }
  }

  // ---------------------------------------------------------------------
  // Splitting
  // ---------------------------------------------------------------------

  /** The output of a split: the pieces, and the delimiters matched between them. */
  datatype Cut = Cut(pieces: seq<string>, delims: seq<string>)

  /** `split` on the rest of `s` from index `from`, delimiters kept aside. */
  function SplitFrom(s: string, from: nat): (c: Cut)
    requires from <= |s|
    ensures |c.pieces| == |c.delims| + 1
    decreases |s| - from
  {
    var r := FirstMatch(s, from);
    if r.None? then Cut([s[from..]], [])
    else
      var i, n := r.value.0, r.value.1;
      var rest := SplitFrom(s, i + n);
      Cut([s[from..i]] + rest.pieces, [s[i..i + n]] + rest.delims)
  }

  /** One step of `SplitFrom`: when the leftmost match from `from` spans
      `[i, e)`, the split is the piece before it, the delimiter, and the
      split from `e`. */
  lemma {:induction false} SplitFromCons(s: string, from: nat, i: nat, n: nat, e: nat,
                                         piece: string, delim: string, rest: Cut)
    requires from <= |s| && FirstMatch(s, from) == Some((i, n)) && e == i + n
    requires s[from..i] == piece && s[i..e] == delim && SplitFrom(s, e) == rest
    ensures SplitFrom(s, from) == Cut([piece] + rest.pieces, [delim] + rest.delims)
  {
  }

  /** `String.prototype.split` with the delimiter pattern. */
  function Split(s: string): (c: Cut)
    ensures |c.pieces| == |c.delims| + 1
  {
    SplitFrom(s, 0)
  }

  /** Pieces interleaved with the delimiters between them. */
  function Interleave(pieces: seq<string>, delims: seq<string>): string
    requires |pieces| == |delims| + 1
  {
    if delims == [] then pieces[0]
    else pieces[0] + delims[0] + Interleave(pieces[1..], delims[1..])
  }

  lemma {:induction false} InterleaveCons(piece: string, delim: string, pieces: seq<string>, delims: seq<string>)
    requires |pieces| == |delims| + 1
    ensures Interleave([piece] + pieces, [delim] + delims) == piece + delim + Interleave(pieces, delims)
  {
    assert ([piece] + pieces)[1..] == pieces;
    assert ([delim] + delims)[1..] == delims;
  }

  /** One step of `SplitFromRebuilds`: a piece and a delimiter in front of
      a rebuilt rest rebuild the text from the piece's start. */
  lemma {:induction false} SplitFromRebuildsStep(s: string, from: nat, i: nat, e: nat, rest: Cut)
    requires from <= i <= e <= |s| && |rest.pieces| == |rest.delims| + 1
    requires Interleave(rest.pieces, rest.delims) == s[e..]
    ensures Interleave([s[from..i]] + rest.pieces, [s[i..e]] + rest.delims) == s[from..]
  {
    InterleaveCons(s[from..i], s[i..e], rest.pieces, rest.delims);
    assert s[from..] == s[from..i] + s[i..e] + s[e..];
  }

  /** The pieces interleaved with the matched delimiters rebuild the text exactly. */
  lemma {:induction false} SplitFromRebuilds(s: string, from: nat)
    requires from <= |s|
    ensures Interleave(SplitFrom(s, from).pieces, SplitFrom(s, from).delims) == s[from..]
    decreases |s| - from
  {
    var r := FirstMatch(s, from);
    if r.Some? {
      var e := r.value.0 + r.value.1;
      SplitFromRebuilds(s, e);
      SplitFromRebuildsStep(s, from, r.value.0, e, SplitFrom(s, e));
    }
  }

  /** Nothing is lost or added by splitting. */
  lemma {:induction false} SplitRebuilds(s: string)
    ensures Interleave(Split(s).pieces, Split(s).delims) == s
  {
    SplitFromRebuilds(s, 0);
  }

  /** A stretch of `s` in which no match starts is delimiter-free on its own. */
  lemma {:induction false} StretchDelimFree(s: string, a: nat, b: nat)
    requires a <= b <= |s| && NoMatchIn(s, a, b)
    ensures DelimFree(s[a..b])
  {
    forall k | 0 <= k < b - a ensures MatchAt(s[a..b], k).None? {
      if MatchAt(s[a..b], k).Some? {
        MatchAtWithin(s, a, b, k);
      }
    }
  }

  /** No piece of a split contains a delimiter match. */
  lemma {:induction false} SplitFromPiecesDelimFree(s: string, from: nat)
    requires from <= |s|
    ensures forall k | 0 <= k < |SplitFrom(s, from).pieces| :: DelimFree(SplitFrom(s, from).pieces[k])
    decreases |s| - from
  {
    FirstMatchLeftmost(s, from);
    var r := FirstMatch(s, from);
    if r.Some? {
      var i, n := r.value.0, r.value.1;
      StretchDelimFree(s, from, i);
      SplitFromPiecesDelimFree(s, i + n);
    } else {
      StretchDelimFree(s, from, |s|);
      assert s[from..] == s[from..|s|];
    }
  }

  /** The tokens of a cleaned chunk: the pieces of its split. */
  function Tokenize(cleaned: string): (tokens: seq<string>)
    ensures |tokens| >= 1
    ensures forall k | 0 <= k < |tokens| :: DelimFree(tokens[k])
  {
    SplitFromPiecesDelimFree(cleaned, 0);
    Split(cleaned).pieces
  }

  // ---------------------------------------------------------------------
  // The split, characterised
  // ---------------------------------------------------------------------

  /** The leftmost-first reading of the pattern, stated declaratively: from
      index `from`, the first piece runs up to the first index where a
      delimiter starts, the first delimiter is that one, and the rest is
      split the same way; with no delimiter left the rest is the last piece. */
  predicate LeftmostSplit(s: string, from: nat, pieces: seq<string>, delims: seq<string>)
    decreases |delims|
  {
    from <= |s| && |pieces| == |delims| + 1 &&
    if delims == [] then pieces[0] == s[from..] && NoMatchIn(s, from, |s|)
    else
      var i, n := from + |pieces[0]|, |delims[0]|;
      && i + n <= |s|
      && s[from..i] == pieces[0]
      && s[i..i + n] == delims[0]
      && IsDelim(delims[0])
      && NoMatchIn(s, from, i)
      && LeftmostSplit(s, i + n, pieces[1..], delims[1..])
  }

  /** A leftmost split from `i + n`, behind a piece that runs from `from` to a
      delimiter `[i, i + n)` with no match before it, extends to a leftmost
      split from `from`. */
  lemma {:induction false} LeftmostSplitCons(s: string, from: nat, i: nat, n: nat, rest: Cut, c: Cut)
    requires from <= i && i + n <= |s|
    requires NoMatchIn(s, from, i) && IsDelim(s[i..i + n])
    requires LeftmostSplit(s, i + n, rest.pieces, rest.delims)
    requires c == Cut([s[from..i]] + rest.pieces, [s[i..i + n]] + rest.delims)
    ensures LeftmostSplit(s, from, c.pieces, c.delims)
  {
    assert c.pieces[0] == s[from..i] && c.pieces[1..] == rest.pieces;
    assert c.delims[0] == s[i..i + n] && c.delims[1..] == rest.delims;
  }

  /** What the leftmost match from `from` tells about the text. */
  lemma {:induction false} FirstMatchFacts(s: string, from: nat, i: nat, n: nat)
    requires from <= |s| && FirstMatch(s, from) == Some((i, n))
    ensures from <= i && i + n <= |s|
    ensures NoMatchIn(s, from, i) && IsDelim(s[i..i + n])
  {
    FirstMatchLeftmost(s, from);
    MatchAtIffDelim(s, i, n);
  }

  /** One step of `SplitFrom` keeps to the leftmost reading. */
  lemma {:induction false} SplitFromLeftmostStep(s: string, from: nat, i: nat, n: nat)
    requires from <= |s| && FirstMatch(s, from) == Some((i, n))
    requires LeftmostSplit(s, i + n, SplitFrom(s, i + n).pieces, SplitFrom(s, i + n).delims)
    ensures LeftmostSplit(s, from, SplitFrom(s, from).pieces, SplitFrom(s, from).delims)
  {
    FirstMatchFacts(s, from, i, n);
    SplitFromCons(s, from, i, n, i + n, s[from..i], s[i..i + n], SplitFrom(s, i + n));
    LeftmostSplitCons(s, from, i, n, SplitFrom(s, i + n), SplitFrom(s, from));
  }

  /** `SplitFrom` produces the leftmost split ... */
  lemma {:induction false} SplitFromIsLeftmost(s: string, from: nat)
    requires from <= |s|
    ensures LeftmostSplit(s, from, SplitFrom(s, from).pieces, SplitFrom(s, from).delims)
    decreases |s| - from
  {
    if FirstMatch(s, from).Some? {
      var i, n := FirstMatch(s, from).value.0, FirstMatch(s, from).value.1;
      SplitFromIsLeftmost(s, i + n);
      SplitFromLeftmostStep(s, from, i, n);
    } else {
      FirstMatchLeftmost(s, from);
    }
  }

  /** The first step of a leftmost split: its first delimiter is the leftmost match. */
  lemma {:induction false} LeftmostSplitHead(s: string, from: nat, pieces: seq<string>, delims: seq<string>)
    requires LeftmostSplit(s, from, pieces, delims) && delims != []
    ensures from + |pieces[0]| + |delims[0]| <= |s|
    ensures FirstMatch(s, from) == Some((from + |pieces[0]|, |delims[0]|))
    ensures s[from..from + |pieces[0]|] == pieces[0]
    ensures s[from + |pieces[0]|..from + |pieces[0]| + |delims[0]|] == delims[0]
    ensures LeftmostSplit(s, from + |pieces[0]| + |delims[0]|, pieces[1..], delims[1..])
  {
    MatchAtIffDelim(s, from + |pieces[0]|, |delims[0]|);
    FirstMatchAt(s, from, from + |pieces[0]|, |delims[0]|);
  }

  /** The step of `SplitFrom` that a leftmost split's head describes. */
  lemma {:induction false} SplitFromHead(s: string, from: nat, pieces: seq<string>, delims: seq<string>)
    requires |pieces| == |delims| + 1 && delims != []
    requires from + |pieces[0]| + |delims[0]| <= |s|
    requires FirstMatch(s, from) == Some((from + |pieces[0]|, |delims[0]|))
    requires s[from..from + |pieces[0]|] == pieces[0]
    requires s[from + |pieces[0]|..from + |pieces[0]| + |delims[0]|] == delims[0]
    requires SplitFrom(s, from + |pieces[0]| + |delims[0]|) == Cut(pieces[1..], delims[1..])
    ensures SplitFrom(s, from) == Cut(pieces, delims)
  {
    SplitFromCons(s, from, from + |pieces[0]|, |delims[0]|, from + |pieces[0]| + |delims[0]|,
                  pieces[0], delims[0], Cut(pieces[1..], delims[1..]));
    assert [pieces[0]] + pieces[1..] == pieces;
    assert [delims[0]] + delims[1..] == delims;
  }

  /** ... and it is the only one. */
  lemma {:induction false} LeftmostSplitUnique(s: string, from: nat, pieces: seq<string>, delims: seq<string>)
    ensures LeftmostSplit(s, from, pieces, delims) ==> SplitFrom(s, from) == Cut(pieces, delims)
    decreases |delims|
  {
    if LeftmostSplit(s, from, pieces, delims) {
      if delims == [] {
        FirstMatchLeftmost(s, from);
        assert pieces == [s[from..]];
      } else {
        LeftmostSplitHead(s, from, pieces, delims);
        LeftmostSplitUnique(s, from + |pieces[0]| + |delims[0]|, pieces[1..], delims[1..]);
        SplitFromHead(s, from, pieces, delims);
      }
    }
  }

  /** The split of `s` is characterised by the leftmost reading, in both directions. */
  lemma {:induction false} SplitIffLeftmost(s: string, pieces: seq<string>, delims: seq<string>)
    ensures Split(s) == Cut(pieces, delims) <==> LeftmostSplit(s, 0, pieces, delims)
  {
    LeftmostSplitUnique(s, 0, pieces, delims);
    if Split(s) == Cut(pieces, delims) {
      SplitFromIsLeftmost(s, 0);
    }
  }

  /** A cleaned chunk with no delimiter is a single token, the whole chunk;
      and a single token means there was no delimiter. */
  lemma {:induction false} TokenizeSingle(s: string)
    ensures Tokenize(s) == [s] <==> DelimFree(s)
  {
    FirstMatchLeftmost(s, 0);
    assert s[0..] == s;
  }

  /** Splitting the empty chunk gives one empty piece (the pattern cannot match nothing). */
  lemma TokenizeEmpty()
    ensures Tokenize("") == [""]
  {
    assert ""[0..] == "";
  }

  /** `~m~~m~` is not a delimiter: the digit run must not be empty. */
  lemma EmptyDigitsNoDelim()
    ensures Tokenize("~m~~m~") == ["~m~~m~"]
  {
    TokenizeSingle("~m~~m~");
  }

  // ---------------------------------------------------------------------
  // Splitting concatenations
  // ---------------------------------------------------------------------

  /** The last step of `ShiftedSplitFrom`: no match is left in either. */
  lemma {:induction false} ShiftedSplitLast(s: string, t: string, k: nat, from: nat)
    requires Shifted(s, t, k) && from <= |t| && FirstMatch(t, from).None?
    requires FirstMatch(s, k + from) == Shift(FirstMatch(t, from), k)
    ensures SplitFrom(s, k + from) == SplitFrom(t, from)
  {
    assert s[k + from..k + |t|] == t[from..|t|];
    assert s[k + from..] == s[k + from..k + |t|];
    assert t[from..] == t[from..|t|];
  }

  /** Where `t` sits in `s`, the split of `s` from there is the split of `t`. */
  lemma {:induction false} ShiftedSplitFrom(s: string, t: string, k: nat, from: nat)
    requires Shifted(s, t, k) && from <= |t|
    ensures SplitFrom(s, k + from) == SplitFrom(t, from)
    decreases |t| - from
  {
    ShiftedFirstMatch(s, t, k, from);
    var r := FirstMatch(t, from);
    if r.Some? {
      var e := r.value.0 + r.value.1;
      ShiftedSplitFrom(s, t, k, e);
      assert s[k + from..k + r.value.0] == t[from..r.value.0];
      assert s[k + r.value.0..k + e] == t[r.value.0..e];
    } else {
      ShiftedSplitLast(s, t, k, from);
    }
  }

  /** Behind a prefix `a`, the split of `a + t` is the split of `t`. */
  lemma {:induction false} AppendSplitFrom(a: string, t: string, from: nat)
    requires from <= |t|
    ensures SplitFrom(a + t, |a| + from) == SplitFrom(t, from)
  {
    ShiftedAppend(a, t);
    ShiftedSplitFrom(a + t, t, |a|, from);
  }

  /** The split of what follows a prefix `a` is the split of the rest on its own. */
  lemma {:induction false} SplitBehindPrefix(a: string, t: string)
    ensures SplitFrom(a + t, |a|) == Split(t)
  {
    AppendSplitFrom(a, t, 0);
  }

  /** A delimiter at the head of `h + t` is the leftmost match. */
  lemma {:induction false} LeadingDelimFirst(h: string, t: string)
    requires IsDelim(h)
    ensures FirstMatch(h + t, 0) == Some((0, |h|))
    ensures (h + t)[0..0] == "" && (h + t)[0..|h|] == h
  {
    assert (h + t)[0..|h|] == h;
    DelimIsMatchAt(h + t, 0, |h|);
  }

  /** A string that starts with a delimiter is cut right there: its first piece is empty. */
  lemma {:induction false} SplitLeadingDelim(h: string, t: string)
    requires IsDelim(h)
    ensures Split(h + t).pieces == [""] + Split(t).pieces
    ensures Split(h + t).delims == [h] + Split(t).delims
  {
    LeadingDelimFirst(h, t);
    SplitBehindPrefix(h, t);
    SplitFromCons(h + t, 0, 0, |h|, |h|, "", h, Split(t));
  }

  /** No match starts inside a '~'-free prefix. */
  lemma {:induction false} TildeFreeNoMatch(a: string, t: string)
    requires '~' !in a
    ensures NoMatchIn(a + t, 0, |a|)
  {
    forall k | 0 <= k < |a| ensures MatchAt(a + t, k).None? {
      assert (a + t)[k] == a[k] && a[k] in a;
    }
  }

  /** Behind a '~'-free prefix, the leftmost match is that of the rest, shifted. */
  lemma {:induction false} TildeFreeFirstMatch(a: string, t: string)
    requires '~' !in a
    ensures FirstMatch(a + t, 0) == Shift(FirstMatch(t, 0), |a|)
  {
    TildeFreeNoMatch(a, t);
    FirstMatchSkip(a + t, 0, |a|);
    ShiftedAppend(a, t);
    ShiftedFirstMatch(a + t, t, |a|, 0);
  }

  /** The step of `TildeFreePrefixSplit` where `t` holds a delimiter: both
      splits cut at the same delimiter, in front of the same rest. */
  lemma {:induction false} TildeFreePrefixStep(a: string, t: string, i: nat, e: nat, rest: Cut)
    requires i <= e <= |t|
    requires SplitFrom(a + t, 0) == Cut([a + t[0..i]] + rest.pieces, [t[i..e]] + rest.delims)
    requires Split(t) == Cut([t[0..i]] + rest.pieces, [t[i..e]] + rest.delims)
    ensures Split(a + t).delims == Split(t).delims
    ensures Split(a + t).pieces == [a + Split(t).pieces[0]] + Split(t).pieces[1..]
  {
    assert ([t[0..i]] + rest.pieces)[1..] == rest.pieces;
  }

  /** A run of '~'-free text in front of a chunk is glued to its first piece. */
  lemma {:induction false} TildeFreePrefixSplit(a: string, t: string)
    requires '~' !in a
    ensures Split(a + t).delims == Split(t).delims
    ensures Split(a + t).pieces == [a + Split(t).pieces[0]] + Split(t).pieces[1..]
  {
    TildeFreeFirstMatch(a, t);
    var r := FirstMatch(t, 0);
    if r.Some? {
      var i, e := r.value.0, r.value.0 + r.value.1;
      AppendSplitFrom(a, t, e);
      PrefixOfAppend(a, t, i);
      SliceOfAppend(a, t, i, e);
      SplitFromCons(a + t, 0, |a| + i, r.value.1, |a| + e, a + t[0..i], t[i..e], SplitFrom(t, e));
      SplitFromCons(t, 0, i, r.value.1, e, t[0..i], t[i..e], SplitFrom(t, e));
      TildeFreePrefixStep(a, t, i, e, SplitFrom(t, e));
    } else {
      assert (a + t)[0..] == a + t && t[0..] == t;
    }
  }
}
