/** A regular expression is modelled by its matcher: given a text and a
    position, the end of the match that starts there, if any. This module
    turns a matcher into Python's leftmost, non-overlapping scanning
    operations: `re.search`, `re.finditer`, `re.split` (a pattern without
    groups) and `re.sub`, the last of which also models `str.replace`.
    Every pattern of the pipeline consumes at least one character, so only
    non-empty matches are considered. */
module Scan {
  import opened Strings

  datatype Span = Span(start: nat, end: nat)

  /** The end of the match starting at the given position, if there is one. */
  type Matcher = (string, nat) -> Option<nat>

  /** The text that replaces one matched substring. */
  type Replacer = string -> string

  /** A non-empty match of `m` starts at `k` and stays inside `s`. */
  predicate MatchesAt(m: Matcher, s: string, k: nat) {
    k < |s| && m(s, k).Some? && k < m(s, k).value <= |s|
  }

  function MatchEnd(m: Matcher, s: string, k: nat): (e: nat)
    requires MatchesAt(m, s, k)
    ensures k < e <= |s|
  {
    m(s, k).value
  }

  /** No match starts in `[lo, hi)`. */
  predicate NoMatchIn(m: Matcher, s: string, lo: nat, hi: nat) {
    forall k :: lo <= k < hi ==> !MatchesAt(m, s, k)
  }

  /** `re.search` from position `from`: the leftmost match, or none at all. */
  function Search(m: Matcher, s: string, from: nat): (r: Option<Span>)
    requires from <= |s|
    ensures r.None? ==> NoMatchIn(m, s, from, |s|)
    ensures r.Some? ==>
      && from <= r.value.start
      && MatchesAt(m, s, r.value.start)
      && r.value.end == MatchEnd(m, s, r.value.start)
      && NoMatchIn(m, s, from, r.value.start)
    decreases |s| - from
  {
    if from == |s| then None
    else if MatchesAt(m, s, from) then Some(Span(from, MatchEnd(m, s, from)))
    else Search(m, s, from + 1)
  }

  /** A match at `k` with none before it from `from` on is what `Search` finds. */
  lemma {:induction false} SearchFinds(m: Matcher, s: string, from: nat, k: nat)
    requires from <= k && NoMatchIn(m, s, from, k) && MatchesAt(m, s, k)
    ensures Search(m, s, from) == Some(Span(k, MatchEnd(m, s, k)))
    decreases k - from
  {
    if from < k {
      SearchFinds(m, s, from + 1, k);
    }
  }

  /** `sp` is the leftmost match of `m` in `s` at or after `from`. */
  predicate IsLeftmost(m: Matcher, s: string, from: nat, sp: Span) {
    && from <= sp.start
    && MatchesAt(m, s, sp.start)
    && sp.end == MatchEnd(m, s, sp.start)
    && NoMatchIn(m, s, from, sp.start)
  }

  /** The leftmost match is what `Search` finds. */
  lemma {:induction false} LeftmostIsSearch(m: Matcher, s: string, from: nat, sp: Span)
    requires IsLeftmost(m, s, from, sp)
    ensures from <= |s| && Search(m, s, from) == Some(sp)
  {
    SearchFinds(m, s, from, sp.start);
  }

  /** What `Search` finds is the only leftmost match. */
  lemma {:induction false} SearchIsLeftmost(m: Matcher, s: string, from: nat, sp: Span)
    requires from <= |s| && Search(m, s, from) == Some(sp)
    ensures forall t :: IsLeftmost(m, s, from, t) ==> t == sp
  {
    forall t | IsLeftmost(m, s, from, t) ensures t == sp {
      LeftmostIsSearch(m, s, from, t);
    }
  }

  /** The last character of the leftmost match of `m` in `s`, if any. */
  function LastOfFirst(m: Matcher, s: string): (r: Option<char>)
    ensures r.None? <==> NoMatchIn(m, s, 0, |s|)
    ensures forall sp :: IsLeftmost(m, s, 0, sp) ==>
      0 < sp.end <= |s| && r == Some(s[sp.end - 1])
  {
    match Search(m, s, 0)
    case None => None
    case Some(sp) =>
      SearchIsLeftmost(m, s, 0, sp);
      Some(s[sp.end - 1])
  }

  /** `spans` is what a left-to-right scan of `s` from `from` finds: the
      leftmost match, then the scan from its end; or, when no match starts
      anywhere from `from` on, nothing. */
  predicate IsScan(m: Matcher, s: string, from: nat, spans: seq<Span>)
    decreases |spans|
  {
    && from <= |s|
    && if spans == [] then NoMatchIn(m, s, from, |s|)
       else IsLeftmost(m, s, from, spans[0]) && IsScan(m, s, spans[0].end, spans[1..])
  }

  /** `re.finditer` from position `from`. */
  function FindAll(m: Matcher, s: string, from: nat): (r: seq<Span>)
    requires from <= |s|
    ensures IsScan(m, s, from, r)
    ensures forall i :: 0 <= i < |r| ==> from <= r[i].start < r[i].end <= |s|
    decreases |s| - from
  {
    match Search(m, s, from)
    case None => []
    case Some(sp) =>
      var rest := FindAll(m, s, sp.end);
      assert ([sp] + rest)[1..] == rest;
      ScanInBounds(m, s, from, [sp] + rest);
      [sp] + rest
  }

  /** A scan is unique: two sequences of spans with the scanning property
      from the same position are equal. */
  lemma {:induction false} ScanUnique(m: Matcher, s: string, from: nat, a: seq<Span>, b: seq<Span>)
    requires IsScan(m, s, from, a) && IsScan(m, s, from, b)
    ensures a == b
    decreases |a|
  {
    if a != [] && b != [] {
      assert a[0].start == b[0].start by {
        assert MatchesAt(m, s, a[0].start) && MatchesAt(m, s, b[0].start);
      }
      ScanUnique(m, s, a[0].end, a[1..], b[1..]);
      assert a == [a[0]] + a[1..];
      assert b == [b[0]] + b[1..];
    }
  }

  /** Any sequence of spans with the scanning property is the result of `FindAll`. */
  lemma {:induction false} FindAllCharacterized(m: Matcher, s: string, from: nat, spans: seq<Span>)
    requires IsScan(m, s, from, spans)
    ensures FindAll(m, s, from) == spans
  {
    ScanUnique(m, s, from, FindAll(m, s, from), spans);
  }

  /** Where the unmatched stretch before the `i`-th span begins. */
  function GapStart(from: nat, spans: seq<Span>, i: nat): nat
    requires i <= |spans|
  {
    if i == 0 then from else spans[i - 1].end
  }

  /** Where the unmatched stretch before the `i`-th span ends (the text end after the last). */
  function GapEnd(s: string, spans: seq<Span>, i: nat): nat
    requires i <= |spans|
  {
    if i < |spans| then spans[i].start else |s|
  }

  /** Read by index, a scan is a sequence of matches, each the leftmost one
      after the end of the previous match, with match-free stretches between. */
  lemma {:induction false} ScanByIndex(m: Matcher, s: string, from: nat, spans: seq<Span>, i: nat)
    requires IsScan(m, s, from, spans) && i <= |spans|
    ensures GapStart(from, spans, i) <= GapEnd(s, spans, i) <= |s|
    ensures NoMatchIn(m, s, GapStart(from, spans, i), GapEnd(s, spans, i))
    ensures i < |spans| ==> IsLeftmost(m, s, GapStart(from, spans, i), spans[i])
    decreases i
  {
    if i > 0 {
      ScanByIndex(m, s, spans[0].end, spans[1..], i - 1);
      assert GapStart(spans[0].end, spans[1..], i - 1) == GapStart(from, spans, i);
      assert GapEnd(s, spans[1..], i - 1) == GapEnd(s, spans, i);
    }
  }

  /** Every span of a scan lies inside the text. */
  lemma {:induction false} ScanInBounds(m: Matcher, s: string, from: nat, spans: seq<Span>)
    requires IsScan(m, s, from, spans)
    ensures forall i :: 0 <= i < |spans| ==> from <= spans[i].start < spans[i].end <= |s|
    decreases |spans|
  {
    if spans != [] {
      ScanInBounds(m, s, spans[0].end, spans[1..]);
      forall i | 1 <= i < |spans|
        ensures from <= spans[i].start < spans[i].end <= |s|
      {
        assert spans[i] == spans[1..][i - 1];
      }
    }
  }

  /** `re.split` from position `from`: the stretches of text between matches,
      one more than there are matches. */
  function Pieces(m: Matcher, s: string, from: nat): (r: seq<string>)
    requires from <= |s|
    ensures |r| == |FindAll(m, s, from)| + 1
    decreases |s| - from
  {
    match Search(m, s, from)
    case None => [s[from..]]
    case Some(sp) => [s[from..sp.start]] + Pieces(m, s, sp.end)
  }

  /** The `i`-th piece of a split is the text between the `(i-1)`-th and the
      `i`-th match (from the scan start, up to the text end, at either end). */
  lemma {:induction false} PiecesByIndex(m: Matcher, s: string, from: nat, i: nat)
    requires from <= |s| && i <= |FindAll(m, s, from)|
    ensures var spans := FindAll(m, s, from);
      && GapStart(from, spans, i) <= GapEnd(s, spans, i) <= |s|
      && Pieces(m, s, from)[i] == s[GapStart(from, spans, i)..GapEnd(s, spans, i)]
  {
    var spans := FindAll(m, s, from);
    PiecesAt(m, s, from, i, GapStart(from, spans, i), GapEnd(s, spans, i));
  }

  /** `PiecesByIndex` with the ends of the gap named. */
  lemma {:induction false} PiecesAt(m: Matcher, s: string, from: nat, i: nat, lo: nat, hi: nat)
    requires from <= |s| && i <= |FindAll(m, s, from)|
    requires lo == GapStart(from, FindAll(m, s, from), i)
    requires hi == GapEnd(s, FindAll(m, s, from), i)
    ensures lo <= hi <= |s| && Pieces(m, s, from)[i] == s[lo..hi]
    decreases i
  {
    ScanByIndex(m, s, from, FindAll(m, s, from), i);
    var r := Search(m, s, from);
    if r.Some? && i > 0 {
      TailIndex(m, s, from, r.value, i);
      PiecesAt(m, s, r.value.end, i - 1, lo, hi);
    } else if r.Some? {
      ScanCons(m, s, from, r.value);
    }
  }

  /** A scan that finds `sp` first goes on from the end of `sp`; so does
      the split. */
  lemma {:induction false} ScanCons(m: Matcher, s: string, from: nat, sp: Span)
    requires from <= |s| && Search(m, s, from) == Some(sp)
    ensures sp.start <= sp.end <= |s|
    ensures FindAll(m, s, from) == [sp] + FindAll(m, s, sp.end)
    ensures Pieces(m, s, from) == [s[from..sp.start]] + Pieces(m, s, sp.end)
  {
  }

  /** Piece `i` and gap `i` of a scan that finds `sp` first are piece and
      gap `i - 1` of the scan from the end of `sp`. */
  lemma {:induction false} TailIndex(m: Matcher, s: string, from: nat, sp: Span, i: nat)
    requires from <= |s| && Search(m, s, from) == Some(sp)
    requires 0 < i <= |FindAll(m, s, from)|
    ensures sp.end <= |s| && i - 1 <= |FindAll(m, s, sp.end)|
    ensures Pieces(m, s, from)[i] == Pieces(m, s, sp.end)[i - 1]
    ensures GapStart(from, FindAll(m, s, from), i) == GapStart(sp.end, FindAll(m, s, sp.end), i - 1)
    ensures GapEnd(s, FindAll(m, s, from), i) == GapEnd(s, FindAll(m, s, sp.end), i - 1)
  {
    var tail := FindAll(m, s, sp.end);
    ScanCons(m, s, from, sp);
    GapShift(s, from, sp, tail, i);
    var p := Pieces(m, s, from);
    var q := Pieces(m, s, sp.end);
    assert p[i] == q[i - 1];
  }

  /** The gaps of a scan that starts with `sp`, counted from its second span. */
  lemma {:induction false} GapShift(s: string, from: nat, sp: Span, tail: seq<Span>, i: nat)
    requires 0 < i <= |tail| + 1
    ensures GapStart(from, [sp] + tail, i) == GapStart(sp.end, tail, i - 1)
    ensures GapEnd(s, [sp] + tail, i) == GapEnd(s, tail, i - 1)
  {
    if i > 1 {
      assert ([sp] + tail)[i - 1] == tail[i - 2];
    }
    if i < |tail| + 1 {
      assert ([sp] + tail)[i] == tail[i - 1];
    }
  }

  /** The texts matched by a scan, in order. */
  function Matched(s: string, spans: seq<Span>): (r: seq<string>)
    requires forall i :: 0 <= i < |spans| ==> spans[i].start <= spans[i].end <= |s|
    ensures |r| == |spans|
  {
    seq(|spans|, i requires 0 <= i < |spans| => s[spans[i].start..spans[i].end])
  }

  /** The separator `sep` is exactly the match starting at `k`. */
  predicate SeparatorAt(m: Matcher, s: string, k: nat, sep: string) {
    MatchesAt(m, s, k) && MatchEnd(m, s, k) == k + |sep|
  }

  /** A split whose first piece runs up to a separator. */
  lemma {:induction false} PiecesCons(m: Matcher, s: string, from: nat, piece: string, sep: string, next: nat)
    requires from + |piece| <= |s| && s[from..from + |piece|] == piece
    requires NoMatchIn(m, s, from, from + |piece|)
    requires SeparatorAt(m, s, from + |piece|, sep)
    requires next == from + |piece| + |sep|
    ensures next <= |s|
    ensures Pieces(m, s, from) == [piece] + Pieces(m, s, next)
  {
    var k := from + |piece|;
    SearchFinds(m, s, from, k);
    assert Search(m, s, from) == Some(Span(k, next));
    calc {
      Pieces(m, s, from);
      [s[from..k]] + Pieces(m, s, next);
      { assert s[from..k] == piece; }
      [piece] + Pieces(m, s, next);
    }
  }

  /** A split of a match-free rest is that rest. */
  lemma {:induction false} PiecesLast(m: Matcher, s: string, from: nat)
    requires from <= |s| && NoMatchIn(m, s, from, |s|)
    ensures Pieces(m, s, from) == [s[from..]]
  {
    assert Search(m, s, from) == None;
  }

  /** Where the `i`-th piece begins in `Rejoin(pieces, seps)`. */
  function PieceStart(pieces: seq<string>, seps: seq<string>, i: nat): nat
    requires |pieces| == |seps| + 1 && i < |pieces|
    decreases i
  {
    if i == 0 then 0 else |pieces[0]| + |seps[0]| + PieceStart(pieces[1..], seps[1..], i - 1)
  }

  /** Where the `i`-th piece ends, and the `i`-th separator begins. */
  function PieceEnd(pieces: seq<string>, seps: seq<string>, i: nat): nat
    requires |pieces| == |seps| + 1 && i < |pieces|
  {
    PieceStart(pieces, seps, i) + |pieces[i]|
  }

  /** Each piece and each separator sits at its place in the rejoined text. */
  lemma {:induction false} RejoinLayout(pieces: seq<string>, seps: seq<string>, i: nat)
    requires |pieces| == |seps| + 1 && i < |pieces|
    ensures var t := Rejoin(pieces, seps);
      && PieceEnd(pieces, seps, i) <= |t|
      && t[PieceStart(pieces, seps, i)..PieceEnd(pieces, seps, i)] == pieces[i]
      && (i < |seps| ==>
            && PieceEnd(pieces, seps, i) + |seps[i]| <= |t|
            && t[PieceEnd(pieces, seps, i)..PieceEnd(pieces, seps, i) + |seps[i]|] == seps[i])
      && (i == |seps| ==> PieceEnd(pieces, seps, i) == |t|)
    decreases i
  {
    var t := Rejoin(pieces, seps);
    if seps == [] {
      assert t == pieces[0];
    } else {
      var rest := Rejoin(pieces[1..], seps[1..]);
      var x := pieces[0] + seps[0];
      assert t == x + rest;
      if i == 0 {
        assert t[..|pieces[0]|] == pieces[0];
        assert t[|pieces[0]|..|x|] == seps[0];
      } else {
        RejoinLayout(pieces[1..], seps[1..], i - 1);
        var a := PieceStart(pieces[1..], seps[1..], i - 1);
        var b := PieceEnd(pieces[1..], seps[1..], i - 1);
        assert pieces[1..][i - 1] == pieces[i];
        assert PieceEnd(pieces, seps, i) == |x| + b;
        SliceAfterPrefix(x, rest, a, b);
        if i < |seps| {
          assert seps[1..][i - 1] == seps[i];
          SliceAfterPrefix(x, rest, b, b + |seps[i]|);
        }
      }
    }
  }

  /** A slice of the part after a prefix, read in the whole text. */
  lemma {:induction false} SliceAfterPrefix(x: string, rest: string, a: nat, b: nat)
    requires a <= b <= |rest|
    ensures (x + rest)[|x| + a..|x| + b] == rest[a..b]
  {
    assert forall k :: 0 <= k < b - a ==> (x + rest)[|x| + a..|x| + b][k] == rest[a..b][k];
  }

  /** Every position of a rejoined text lies in a piece or in the
      separator after it; the result is the index of that piece. */
  lemma {:induction false} RejoinLocate(pieces: seq<string>, seps: seq<string>, k: nat) returns (i: nat)
    requires |pieces| == |seps| + 1 && k < |Rejoin(pieces, seps)|
    ensures i < |pieces|
    ensures || PieceStart(pieces, seps, i) <= k < PieceEnd(pieces, seps, i)
            || (i < |seps| && PieceEnd(pieces, seps, i) <= k < PieceEnd(pieces, seps, i) + |seps[i]|)
    decreases |seps|
  {
    if seps == [] || k < |pieces[0]| + |seps[0]| {
      i := 0;
    } else {
      var h := |pieces[0]| + |seps[0]|;
      var j := RejoinLocate(pieces[1..], seps[1..], k - h);
      i := j + 1;
      assert PieceStart(pieces, seps, i) == h + PieceStart(pieces[1..], seps[1..], j);
      assert pieces[i] == pieces[1..][j];
      assert i < |seps| ==> seps[i] == seps[1..][j];
    }
  }

  /** The pieces of a text that is `Rejoin(pieces, seps)`, where each
      separator is exactly one match and no match starts inside a piece,
      are `pieces`: splitting undoes rejoining. */
  lemma {:induction false} PiecesOfRejoin(m: Matcher, pieces: seq<string>, seps: seq<string>)
    requires |pieces| == |seps| + 1
    requires forall i :: 0 <= i < |pieces| ==>
      NoMatchIn(m, Rejoin(pieces, seps), PieceStart(pieces, seps, i), PieceEnd(pieces, seps, i))
    requires forall i :: 0 <= i < |seps| ==>
      SeparatorAt(m, Rejoin(pieces, seps), PieceEnd(pieces, seps, i), seps[i])
    ensures Pieces(m, Rejoin(pieces, seps), 0) == pieces
  {
    var t := Rejoin(pieces, seps);
    forall j | 0 <= j < |pieces|
      ensures PieceEnd(pieces, seps, j) <= |t|
      ensures t[PieceStart(pieces, seps, j)..PieceEnd(pieces, seps, j)] == pieces[j]
    {
      RejoinLayout(pieces, seps, j);
    }
    RejoinLayout(pieces, seps, |seps|);
    PiecesOfRejoinFrom(m, t, pieces, seps, 0);
  }

  /** The split from the `i`-th piece on, for a text in which the pieces
      and separators sit at their places. */
  lemma {:induction false} PiecesOfRejoinFrom(m: Matcher, t: string, pieces: seq<string>, seps: seq<string>, i: nat)
    requires |pieces| == |seps| + 1 && i < |pieces|
    requires forall j :: i <= j < |pieces| ==>
      PieceEnd(pieces, seps, j) <= |t| && t[PieceStart(pieces, seps, j)..PieceEnd(pieces, seps, j)] == pieces[j]
    requires PieceEnd(pieces, seps, |seps|) == |t|
    requires forall j :: i <= j < |pieces| ==>
      NoMatchIn(m, t, PieceStart(pieces, seps, j), PieceEnd(pieces, seps, j))
    requires forall j :: i <= j < |seps| ==>
      SeparatorAt(m, t, PieceEnd(pieces, seps, j), seps[j])
    ensures PieceStart(pieces, seps, i) <= |t|
    ensures Pieces(m, t, PieceStart(pieces, seps, i)) == pieces[i..]
    decreases |pieces| - i
  {
    var a := PieceStart(pieces, seps, i);
    var b := PieceEnd(pieces, seps, i);
    assert NoMatchIn(m, t, a, b);
    assert t[a..b] == pieces[i];
    if i == |seps| {
      assert b == |t|;
      assert t[a..] == pieces[i] by {
        assert t[a..] == t[a..b];
      }
      PiecesLast(m, t, a);
      calc {
        Pieces(m, t, a);
        [t[a..]];
        [pieces[i]];
        pieces[i..];
      }
    } else {
      assert SeparatorAt(m, t, b, seps[i]);
      NextPieceStart(pieces, seps, i);
      var next := PieceStart(pieces, seps, i + 1);
      PiecesCons(m, t, a, pieces[i], seps[i], next);
      PiecesOfRejoinFrom(m, t, pieces, seps, i + 1);
      calc {
        Pieces(m, t, a);
        [pieces[i]] + Pieces(m, t, next);
        [pieces[i]] + pieces[i + 1..];
        { ConsSlice(pieces, i); }
        pieces[i..];
      }
    }
  }

  /** A suffix is its first element followed by the next suffix. */
  lemma {:induction false} ConsSlice<T>(xs: seq<T>, i: nat)
    requires i < |xs|
    ensures [xs[i]] + xs[i + 1..] == xs[i..]
  {
  }

  /** The next piece begins after the current piece and its separator. */
  lemma {:induction false} NextPieceStart(pieces: seq<string>, seps: seq<string>, i: nat)
    requires |pieces| == |seps| + 1 && i < |seps|
    ensures PieceStart(pieces, seps, i + 1) == PieceEnd(pieces, seps, i) + |seps[i]|
    decreases i
  {
    if i > 0 {
      NextPieceStart(pieces[1..], seps[1..], i - 1);
    }
  }

  /** Interleaves pieces with separators: `p0 + d0 + p1 + d1 + ... + pn`. */
  function Rejoin(pieces: seq<string>, seps: seq<string>): string
    requires |pieces| == |seps| + 1
    decreases |seps|
  {
    if seps == [] then pieces[0]
    else pieces[0] + seps[0] + Rejoin(pieces[1..], seps[1..])
  }

  /** Putting the split pieces back together with the matched separators
      gives back the scanned text. */
  lemma {:induction false} SplitRejoin(m: Matcher, s: string, from: nat)
    requires from <= |s|
    ensures Rejoin(Pieces(m, s, from), Matched(s, FindAll(m, s, from))) == s[from..]
    decreases |s| - from
  {
    var r := Search(m, s, from);
    if r.Some? {
      var sp := r.value;
      SplitRejoin(m, s, sp.end);
      var tail := FindAll(m, s, sp.end);
      ScanCons(m, s, from, sp);
      MatchedCons(s, sp, tail);
      RejoinCons(s[from..sp.start], s[sp.start..sp.end], Pieces(m, s, sp.end), Matched(s, tail));
      AdjacentSlices(s, from, sp.start, sp.end);
    }
  }

  /** The matched texts of a scan that starts with `sp`. */
  lemma {:induction false} MatchedCons(s: string, sp: Span, tail: seq<Span>)
    requires sp.start <= sp.end <= |s|
    requires forall i :: 0 <= i < |tail| ==> tail[i].start <= tail[i].end <= |s|
    ensures Matched(s, [sp] + tail) == [s[sp.start..sp.end]] + Matched(s, tail)
  {
    var a := Matched(s, [sp] + tail);
    var b := [s[sp.start..sp.end]] + Matched(s, tail);
    assert |a| == |b|;
    forall i | 0 <= i < |a| ensures a[i] == b[i] {
      if i > 0 {
        assert ([sp] + tail)[i] == tail[i - 1];
      }
    }
  }

  /** Rejoining a first piece and separator in front of the rest. */
  lemma {:induction false} RejoinCons(p: string, d: string, ps: seq<string>, ds: seq<string>)
    requires |ps| == |ds| + 1
    ensures Rejoin([p] + ps, [d] + ds) == p + d + Rejoin(ps, ds)
  {
    assert ([p] + ps)[1..] == ps;
    assert ([d] + ds)[1..] == ds;
  }

  /** Three adjacent slices make up the suffix they cover. */
  lemma {:induction false} AdjacentSlices(s: string, a: nat, b: nat, c: nat)
    requires a <= b <= c <= |s|
    ensures s[a..b] + s[b..c] + s[c..] == s[a..]
  {
    assert s[a..] == s[a..b] + s[b..];
    assert s[b..] == s[b..c] + s[c..];
  }

  /** `re.sub` from position `from`: each match, left to right, is replaced
      by `repl` applied to the matched text. */
  function SubFrom(m: Matcher, repl: Replacer, s: string, from: nat): (r: string)
    requires from <= |s|
    ensures NoMatchIn(m, s, from, |s|) ==> r == s[from..]
    decreases |s| - from
  {
    match Search(m, s, from)
    case None => s[from..]
    case Some(sp) => s[from..sp.start] + repl(s[sp.start..sp.end]) + SubFrom(m, repl, s, sp.end)
  }

  /** One step of `re.sub`: the text before the leftmost match, its
      replacement, then the substitution from the end of the match. */
  lemma {:induction false} SubFromStep(m: Matcher, repl: Replacer, s: string, from: nat, sp: Span)
    requires from <= |s| && Search(m, s, from) == Some(sp)
    ensures sp.start <= sp.end <= |s|
    ensures SubFrom(m, repl, s, from) == s[from..sp.start] + repl(s[sp.start..sp.end]) + SubFrom(m, repl, s, sp.end)
  {
  }

  /** Where no match starts, `re.sub` keeps the character and goes on. */
  lemma {:induction false} SubFromSkip(m: Matcher, repl: Replacer, s: string, from: nat)
    requires from < |s| && !MatchesAt(m, s, from)
    ensures SubFrom(m, repl, s, from) == [s[from]] + SubFrom(m, repl, s, from + 1)
  {
    assert Search(m, s, from) == Search(m, s, from + 1);
    match Search(m, s, from + 1)
    case None =>
      assert s[from..] == [s[from]] + s[from + 1..];
    case Some(sp) =>
      assert s[from..sp.start] == [s[from]] + s[from + 1..sp.start];
  }

  /** One step of deleting matches: the text before the leftmost match,
      then the deletion from the end of the match. */
  lemma {:induction false} SubDeleteStep(m: Matcher, s: string, from: nat, sp: Span)
    requires from <= |s| && Search(m, s, from) == Some(sp)
    ensures sp.start <= sp.end <= |s|
    ensures SubFrom(m, Delete, s, from) == s[from..sp.start] + SubFrom(m, Delete, s, sp.end)
  {
    SubFromStep(m, Delete, s, from, sp);
    assert Delete(s[sp.start..sp.end]) == [];
  }

  /** `re.sub` over the whole text. */
  function Sub(m: Matcher, repl: Replacer, s: string): (r: string)
    ensures NoMatchIn(m, s, 0, |s|) ==> r == s
  {
    SubFrom(m, repl, s, 0)
  }

  /** A fixed string, matched exactly; with `Sub`, Python's `str.replace`. */
  function LiteralAt(lit: string): Matcher {
    (s: string, p: nat) => if |lit| > 0 && HasLiteralAt(s, p, lit) then Some(p + |lit|) else None
  }

  /** The replacer that puts the matched text back. */
  function Keep(t: string): string { t }

  /** The replacer that deletes the matched text (`re.sub` with `''`). */
  function Delete(t: string): string { "" }

  /** Replacing every match by itself changes nothing. */
  lemma {:induction false} SubIdentity(m: Matcher, s: string, from: nat)
    requires from <= |s|
    ensures SubFrom(m, Keep, s, from) == s[from..]
    decreases |s| - from
  {
    match Search(m, s, from)
    case None =>
    case Some(sp) =>
      SubIdentity(m, s, sp.end);
      assert s[from..] == s[from..sp.start] + s[sp.start..sp.end] + s[sp.end..];
  }

  /** Deleting every match leaves exactly the split pieces, concatenated. */
  lemma {:induction false} SubDeleteIsPieces(m: Matcher, s: string, from: nat)
    requires from <= |s|
    ensures SubFrom(m, Delete, s, from) == Concat(Pieces(m, s, from))
    decreases |s| - from
  {
    match Search(m, s, from)
    case None =>
      assert Pieces(m, s, from) == [s[from..]];
      assert Concat([s[from..]]) == s[from..] + Concat([]);
    case Some(sp) =>
      SubDeleteIsPieces(m, s, sp.end);
      var p := Pieces(m, s, from);
      assert p == [s[from..sp.start]] + Pieces(m, s, sp.end);
      assert p[1..] == Pieces(m, s, sp.end);
  }

  /** Deleting matches never makes a text longer. */
  lemma {:induction false} SubDeleteShrinks(m: Matcher, s: string, from: nat)
    requires from <= |s|
    ensures |SubFrom(m, Delete, s, from)| <= |s| - from
    decreases |s| - from
  {
    match Search(m, s, from)
    case None =>
    case Some(sp) =>
      SubDeleteShrinks(m, s, sp.end);
  }

  /** The replacer applied to every string of a list. */
  function MapRepl(repl: Replacer, ts: seq<string>): (r: seq<string>)
    ensures |r| == |ts|
    ensures forall i :: 0 <= i < |ts| ==> r[i] == repl(ts[i])
  {
    seq(|ts|, i requires 0 <= i < |ts| => repl(ts[i]))
  }

  /** Replacing each text of a sequence with one more text at the back. */
  lemma {:induction false} MapReplSnoc(repl: Replacer, ts: seq<string>)
    requires ts != []
    ensures MapRepl(repl, ts) == MapRepl(repl, ts[..|ts| - 1]) + [repl(ts[|ts| - 1])]
  {
    var init := ts[..|ts| - 1];
    var a := MapRepl(repl, ts);
    var b := MapRepl(repl, init) + [repl(ts[|ts| - 1])];
    forall i | 0 <= i < |a| ensures a[i] == b[i] {
      if i < |init| {
        assert init[i] == ts[i];
      }
    }
  }

  /** `re.sub` is a split followed by a rejoin in which every matched text
      is replaced by its replacement. */
  lemma {:induction false} SubIsRejoin(m: Matcher, repl: Replacer, s: string, from: nat)
    requires from <= |s|
    ensures SubFrom(m, repl, s, from)
      == Rejoin(Pieces(m, s, from), MapRepl(repl, Matched(s, FindAll(m, s, from))))
    decreases |s| - from
  {
    var r := Search(m, s, from);
    if r.Some? {
      var sp := r.value;
      SubIsRejoin(m, repl, s, sp.end);
      var p := Pieces(m, s, from);
      var tail := FindAll(m, s, sp.end);
      assert FindAll(m, s, from) == [sp] + tail;
      var d := MapRepl(repl, Matched(s, FindAll(m, s, from)));
      assert p == [s[from..sp.start]] + Pieces(m, s, sp.end);
      assert d[0] == repl(s[sp.start..sp.end]);
      assert d[1..] == MapRepl(repl, Matched(s, tail));
      assert p[1..] == Pieces(m, s, sp.end);
      SubFromStep(m, repl, s, from, sp);
    }
  }

  /** All the strings of a list, one after another. */
  function Concat(ss: seq<string>): string
  {
    if ss == [] then [] else ss[0] + Concat(ss[1..])
  }

  /** Concatenating one more text at the back appends it. */
  lemma {:induction false} ConcatSnoc(ss: seq<string>, t: string)
    ensures Concat(ss + [t]) == Concat(ss) + t
    decreases |ss|
  {
    if ss == [] {
      assert [] + [t] == [t];
      assert Concat([t]) == t + Concat([]);
    } else {
      assert (ss + [t])[1..] == ss[1..] + [t];
      ConcatSnoc(ss[1..], t);
      assert Concat(ss + [t]) == ss[0] + Concat(ss[1..] + [t]);
      assert ss[0] + (Concat(ss[1..]) + t) == (ss[0] + Concat(ss[1..])) + t;
    }
  }
}
