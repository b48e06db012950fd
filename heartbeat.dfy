/** The heartbeat stripper: `str.replace(/~h~/g, '')`.

    A global `replace` scans left to right; where the pattern matches it
    deletes the three characters and resumes after them, elsewhere it keeps
    one character and moves on. Matches are therefore leftmost and never
    overlap, and the result is not rescanned. */
module Heartbeat {

  /** The literal `~h~` of `cleanerRgx`. */
  const Marker: string := "~h~"

  /** A heartbeat marker starts at the head of `s`. */
  predicate MarkerAt(s: string) {
    |s| >= 3 && s[0] == '~' && s[1] == 'h' && s[2] == '~'
  }

  /** Some heartbeat marker occurs in `s`. */
  predicate HasMarker(s: string) {
    exists i | 0 <= i < |s| :: MarkerAt(s[i..])
  }

  /** One left-to-right pass deleting leftmost, non-overlapping markers. */
  function Strip(s: string): (r: string)
    ensures |r| <= |s|
  {
    if MarkerAt(s) then Strip(s[3..])
    else if s == [] then []
    else [s[0]] + Strip(s[1..])
  }

  /** Stripping removes whole markers: the length drops by a multiple of three. */
  lemma {:induction false} StripLength(s: string)
    ensures (|s| - |Strip(s)|) % 3 == 0
  {
    if MarkerAt(s) {
      StripLength(s[3..]);
      assert |s| - |Strip(s)| == (|s[3..]| - |Strip(s[3..])|) + 3;
    } else if s != [] {
      StripLength(s[1..]);
      assert |s| - |Strip(s)| == |s[1..]| - |Strip(s[1..])|;
    }
  }

  /** A character that does not open a marker is kept. */
  lemma {:induction false} StripKeep(c: char, z: string)
    requires !MarkerAt([c] + z)
    ensures Strip([c] + z) == [c] + Strip(z)
  {
    assert ([c] + z)[0] == c && ([c] + z)[1..] == z;
  }

  /** A marker at the head is deleted. */
  lemma {:induction false} StripMarkerHead(z: string)
    ensures Strip(Marker + z) == Strip(z)
  {
    assert MarkerAt(Marker + z) && (Marker + z)[3..] == z;
  }

  /** `Markers(n)` is `n` heartbeat markers back to back. */
  function Markers(n: nat): (s: string)
    ensures |s| == 3 * n
  {
    if n == 0 then [] else Marker + Markers(n - 1)
  }

  /** `a` is `b` with some characters deleted (order kept). */
  predicate IsSubsequence(a: string, b: string)
    decreases |b|
  {
    if a == [] then true
    else if b == [] then false
    else (a[0] == b[0] && IsSubsequence(a[1..], b[1..])) || IsSubsequence(a, b[1..])
  }

  lemma {:induction false} SubsequenceCons(a: string, c: char, b: string)
    requires IsSubsequence(a, b)
    ensures IsSubsequence(a, [c] + b)
  {
    assert ([c] + b)[1..] == b;
  }

  /** Stripping only deletes characters: it never inserts or reorders any. */
  lemma {:induction false} StripIsSubsequence(s: string)
    ensures IsSubsequence(Strip(s), s)
  {
    if MarkerAt(s) {
      StripIsSubsequence(s[3..]);
      SubsequenceCons(Strip(s), s[2], s[3..]);
      assert [s[2]] + s[3..] == s[2..];
      SubsequenceCons(Strip(s), s[1], s[2..]);
      assert [s[1]] + s[2..] == s[1..];
      SubsequenceCons(Strip(s), s[0], s[1..]);
      assert [s[0]] + s[1..] == s;
    } else if s != [] {
      StripIsSubsequence(s[1..]);
    }
  }

  /** A chunk with no marker is returned unchanged. */
  lemma {:induction false} StripNoMarker(s: string)
    requires !HasMarker(s)
    ensures Strip(s) == s
  {
    if s != [] {
      assert !MarkerAt(s[0..]);
      assert s[0..] == s;
      forall i | 0 <= i < |s[1..]|
        ensures !MarkerAt(s[1..][i..])
      {
        assert s[1..][i..] == s[i + 1..];
      }
      StripNoMarker(s[1..]);
    }
  }

  /** A chunk that holds a marker comes back strictly shorter. */
  lemma {:induction false} StripShrinksMarker(s: string)
    requires HasMarker(s)
    ensures |Strip(s)| < |s|
  {
    if !MarkerAt(s) {
      var i :| 0 <= i < |s| && MarkerAt(s[i..]);
      assert i != 0;
      assert s[1..][i - 1..] == s[i..];
      StripShrinksMarker(s[1..]);
    }
  }

  /** Strip leaves a chunk unchanged exactly when it holds no marker. */
  lemma {:induction false} StripIdentity(s: string)
    ensures Strip(s) == s <==> !HasMarker(s)
  {
    if HasMarker(s) {
      StripShrinksMarker(s);
    } else {
      StripNoMarker(s);
    }
  }

  /** A chunk made only of heartbeats strips to nothing (the empty chunk included). */
  lemma {:induction false} StripMarkers(n: nat)
    ensures Strip(Markers(n)) == []
  {
    if n > 0 {
      assert (Marker + Markers(n - 1))[3..] == Markers(n - 1);
      StripMarkers(n - 1);
    }
  }

  /** Markers at the head of a chunk vanish without touching what follows. */
  lemma {:induction false} StripLeadingMarkers(n: nat, s: string)
    ensures Strip(Markers(n) + s) == Strip(s)
  {
    if n > 0 {
      var t := Markers(n - 1) + s;
      assert Markers(n) + s == Marker + t;
      assert MarkerAt(Marker + t);
      assert (Marker + t)[3..] == t;
      StripLeadingMarkers(n - 1, s);
    } else {
      assert Markers(n) + s == s;
    }
  }

  /** `x` does not end in a proper prefix of a marker ("~" or "~h"), so no
      marker can start inside `x` and finish in what follows it. */
  predicate ClosedEnd(x: string) {
    && !(|x| >= 1 && x[|x| - 1] == '~')
    && !(|x| >= 2 && x[|x| - 2] == '~' && x[|x| - 1] == 'h')
  }

  /** Behind a closed end, a marker at the head of `x + y` lies wholly in `x`. */
  lemma {:induction false} MarkerAtSeam(x: string, y: string)
    requires ClosedEnd(x) && x != []
    ensures MarkerAt(x + y) <==> MarkerAt(x)
  {
    if |x| >= 3 {
      assert (x + y)[0] == x[0] && (x + y)[1] == x[1] && (x + y)[2] == x[2];
    } else if |x| == 2 {
      assert (x + y)[0] == x[0] && (x + y)[1] == x[1];
    } else {
      assert (x + y)[0] == x[0];
    }
  }

  /** Dropping characters from the front keeps the end closed. */
  lemma {:induction false} ClosedEndDrop(x: string, k: nat)
    requires ClosedEnd(x) && k <= |x|
    ensures ClosedEnd(x[k..])
  {
    var x' := x[k..];
    if |x'| >= 1 { assert x'[|x'| - 1] == x[|x| - 1]; }
    if |x'| >= 2 { assert x'[|x'| - 2] == x[|x| - 2]; }
  }

  /** The step of `StripConcat` where `x` opens with a marker. */
  lemma {:induction false} StripConcatMarker(x: string, y: string)
    requires ClosedEnd(x) && MarkerAt(x)
    requires Strip(x[3..] + y) == Strip(x[3..]) + Strip(y)
    ensures Strip(x + y) == Strip(x) + Strip(y)
  {
    MarkerAtSeam(x, y);
    assert (x + y)[3..] == x[3..] + y;
  }

  /** The step of `StripConcat` where `x` opens with a kept character. */
  lemma {:induction false} StripConcatKeep(x: string, y: string)
    requires ClosedEnd(x) && x != [] && !MarkerAt(x)
    requires Strip(x[1..] + y) == Strip(x[1..]) + Strip(y)
    ensures Strip(x + y) == Strip(x) + Strip(y)
  {
    MarkerAtSeam(x, y);
    assert (x + y)[0] == x[0];
    assert (x + y)[1..] == x[1..] + y;
    assert Strip(x + y) == [x[0]] + Strip(x[1..] + y);
    assert Strip(x) == [x[0]] + Strip(x[1..]);
    assert [x[0]] + (Strip(x[1..]) + Strip(y)) == [x[0]] + Strip(x[1..]) + Strip(y);
  }

  /** Stripping distributes over a concatenation whose seam no marker straddles. */
  lemma {:induction false} StripConcat(x: string, y: string)
    requires ClosedEnd(x)
    ensures Strip(x + y) == Strip(x) + Strip(y)
    decreases |x|
  {
    if x == [] {
      assert x + y == y;
    } else if MarkerAt(x) {
      ClosedEndDrop(x, 3);
      StripConcat(x[3..], y);
      StripConcatMarker(x, y);
    } else {
      ClosedEndDrop(x, 1);
      StripConcat(x[1..], y);
      StripConcatKeep(x, y);
    }
  }

  /** A prefix without any '~' passes through untouched. */
  lemma {:induction false} StripTildeFreePrefix(a: string, s: string)
    requires '~' !in a
    ensures Strip(a + s) == a + Strip(s)
  {
    if a != [] {
      assert a[0] in a;
      assert (a + s)[1..] == a[1..] + s;
      StripTildeFreePrefix(a[1..], s);
    } else {
      assert a + s == s;
    }
  }

  /** Stripping is not idempotent: deleting one marker can join two
      characters on either side into a new one, which a single pass keeps. */
  lemma StripNotIdempotent()
    ensures Strip("~~h~h~") == "~h~"
    ensures Strip(Strip("~~h~h~")) == ""
  {
    var s := "~~h~h~";
    assert !MarkerAt(s);
    assert s[1..] == "~h~h~";
    assert MarkerAt(s[1..]);
    assert s[1..][3..] == "h~";
    assert Strip("h~") == "h~" by {
      assert "h~"[1..] == "~";
      assert "~"[1..] == "";
    }
    assert Strip("~h~") == "" by {
      assert "~h~"[3..] == "";
    }
  }
}
