/** What the keyword filter of misc/co_wordfilter.c is to do, said about bytes. */
module Keywords {
  import opened Basics
  import opened Utf8

  type Word = seq<Code>

  /** The bytes are a keyword. */
  ghost predicate Keyword(words: set<Word>, b: seq<byte>) {
    exists w :: w in words && w != [] && EncodeAll(w) == b
  }

  /** The length of the shortest keyword of at least `m` bytes that begins the
      text, and 0 if there is none. */
  ghost function MatchFrom(words: set<Word>, t: seq<byte>, m: nat): nat
    decreases |t| - m
  {
    if m > |t| then 0 else if Keyword(words, t[..m]) then m else MatchFrom(words, t, m + 1)
  }

  ghost function Match(words: set<Word>, t: seq<byte>): nat { MatchFrom(words, t, 1) }

  lemma {:induction false} MatchFromIs(words: set<Word>, t: seq<byte>, m: nat, k: nat)
    requires m <= k <= |t| && Keyword(words, t[..k]) && forall j :: m <= j < k ==> !Keyword(words, t[..j])
    ensures MatchFrom(words, t, m) == k
    decreases k - m
  {
    if m < k { MatchFromIs(words, t, m + 1, k); }
  }

  lemma {:induction false} NoMatchFrom(words: set<Word>, t: seq<byte>, m: nat)
    requires forall j :: m <= j <= |t| ==> !Keyword(words, t[..j])
    ensures MatchFrom(words, t, m) == 0
    decreases |t| - m
  {
    if m <= |t| { NoMatchFrom(words, t, m + 1); }
  }

  lemma {:induction false} MatchFromMeans(words: set<Word>, t: seq<byte>, m: nat)
    requires m > 0
    ensures var k := MatchFrom(words, t, m);
            && (k == 0 ==> forall j :: m <= j <= |t| ==> !Keyword(words, t[..j]))
            && (k > 0 ==> m <= k <= |t| && Keyword(words, t[..k]) && forall j :: m <= j < k ==> !Keyword(words, t[..j]))
    decreases |t| - m
  {
    if m <= |t| && !Keyword(words, t[..m]) { MatchFromMeans(words, t, m + 1); }
  }

  /** No beginning of `q` is a keyword. */
  ghost predicate Unmatched(words: set<Word>, q: Word) {
    forall k :: 0 < k <= |q| ==> q[..k] !in words
  }

  lemma ShorterIsPrefix(w: Word, q: Word)
    requires w <= q || q <= w
    ensures |w| <= |q| ==> w == q[..|w|]
  {
  }

  /** A keyword at the beginning of a text lies within what was read, or goes on from there. */
  lemma WithinOrBeyond(words: set<Word>, t: seq<byte>, q: Word, w: Word)
    requires EncodeAll(q) <= t && EncodeAll(w) <= t && w in words && w != [] && Unmatched(words, q)
    ensures |w| > |q| && w[..|q|] == q && Starts(t[|EncodeAll(q)|..], w[|q|])
  {
    hide Encode, EncodeAll;
    OneContinues(t, w, q);
    ShorterIsPrefix(w, q);
    EncodeConcat(q, w[|q|..]);
    assert w == q + w[|q|..];
    EncodeAllStep(w[|q|], w[|q| + 1..]);
    assert w[|q|..] == [w[|q|]] + w[|q| + 1..];
    BehindPrefix(t, EncodeAll(q), Encode(w[|q|]), EncodeAll(w[|q| + 1..]));
  }

  lemma BehindPrefix(t: seq<byte>, a: seq<byte>, b: seq<byte>, c: seq<byte>)
    requires a + (b + c) <= t
    ensures a <= t && b <= t[|a|..]
  {
    assert (a + (b + c))[..|a|] == a && (a + (b + c))[|a|..] == b + c;
    assert t[|a|..][..|b + c|] == b + c;
  }

  lemma NoShorter(words: set<Word>, t: seq<byte>, q: Word, c: Code, v: Word)
    requires Unmatched(words, q) && EncodeAll(q + [c]) <= t && v in words && v != [] && EncodeAll(v) <= t
    ensures |EncodeAll(v)| >= |EncodeAll(q + [c])|
  {
    EncodeMore(q, c);
    hide Encode, EncodeAll;
    WithinOrBeyond(words, t, q, v);
    StartsOnce(t[|EncodeAll(q)|..], v[|q|], c);
    EncodeConcat(q + [c], v[|q| + 1..]);
    assert v == q + [c] + v[|q| + 1..];
  }

  /** The first keyword reached by reading is the shortest match. */
  lemma MatchFound(words: set<Word>, t: seq<byte>, q: Word, c: Code)
    requires Unmatched(words, q) && q + [c] in words && EncodeAll(q + [c]) <= t
    ensures Match(words, t) == |EncodeAll(q + [c])|
  {
    var w := q + [c];
    EncodeMore(q, c);
    hide Encode, EncodeAll;
    var m := |EncodeAll(w)|;
    assert EncodeAll(w) == t[..m];
    forall j | 1 <= j < m ensures !Keyword(words, t[..j]) {
      if v :| v in words && v != [] && EncodeAll(v) == t[..j] {
        NoShorter(words, t, q, c, v);
      }
    }
    MatchFromIs(words, t, 1, m);
  }

  /** Where no code that continues a keyword follows, there is no match. */
  lemma NoMatch(words: set<Word>, t: seq<byte>, q: Word)
    requires Unmatched(words, q) && EncodeAll(q) <= t
    requires forall w :: w in words && |w| > |q| && w[..|q|] == q ==> !Starts(t[|EncodeAll(q)|..], w[|q|])
    ensures Match(words, t) == 0
  {
    forall j | 1 <= j <= |t| ensures !Keyword(words, t[..j]) {
      if v :| v in words && v != [] && EncodeAll(v) == t[..j] {
        WithinOrBeyond(words, t, q, v);
        assert false;
      }
    }
    NoMatchFrom(words, t, 1);
  }

  ghost function CodeLen(t: seq<byte>): nat {
    if Malformed(t) then 0 else var c: Code :| Starts(t, c); |Encode(c)|
  }

  lemma CodeLenIs(t: seq<byte>, c: Code)
    requires Starts(t, c)
    ensures CodeLen(t) == |Encode(c)| <= |t|
  {
    forall d: Code | Starts(t, d) ensures d == c { StartsOnce(t, c, d); }
  }

  /** A keyword begins at one of the places that the scan comes by. */
  ghost predicate Check(words: set<Word>, t: seq<byte>)
    decreases |t|
  {
    && t != [] && t[0] != 0
    && (Match(words, t) > 0 || (0 < CodeLen(t) <= |t| && Check(words, t[CodeLen(t)..])))
  }

  lemma CheckStep(words: set<Word>, t: seq<byte>)
    requires t != []
    ensures t[0] == 0 ==> !Check(words, t)
    ensures t[0] != 0 && Match(words, t) > 0 ==> Check(words, t)
    ensures t[0] != 0 && Match(words, t) == 0 && Malformed(t) ==> !Check(words, t)
    ensures forall c: Code :: t[0] != 0 && Match(words, t) == 0 && Starts(t, c) ==>
              Check(words, t) == Check(words, t[|Encode(c)|..])
  {
    forall c: Code | Starts(t, c) ensures CodeLen(t) == |Encode(c)| <= |t| { CodeLenIs(t, c); }
  }

  lemma {:induction false} CheckForNothing(t: seq<byte>)
    ensures !Check({}, t)
    decreases |t|
  {
    NoMatchFrom({}, t, 1);
    if t != [] && 0 < CodeLen(t) <= |t| { CheckForNothing(t[CodeLen(t)..]); }
  }

  ghost function Repeat(ch: byte, n: nat): (s: seq<byte>)
    ensures |s| == n && forall i :: 0 <= i < n ==> s[i] == ch
  {
    seq(n, _ => ch)
  }

  /** The text with every byte of the leftmost, shortest matches replaced. */
  ghost function Filtered(words: set<Word>, t: seq<byte>, ch: byte): seq<byte>
    decreases |t|
  {
    if t == [] || t[0] == 0 then t
    else if 0 < Match(words, t) <= |t| then Repeat(ch, Match(words, t)) + Filtered(words, t[Match(words, t)..], ch)
    else if 0 < CodeLen(t) <= |t| then t[..CodeLen(t)] + Filtered(words, t[CodeLen(t)..], ch)
    else t
  }

  lemma FilteredStep(words: set<Word>, t: seq<byte>, ch: byte)
    requires t != []
    ensures Match(words, t) <= |t|
    ensures t[0] == 0 ==> Filtered(words, t, ch) == t
    ensures t[0] != 0 && Match(words, t) > 0 ==>
              Filtered(words, t, ch) == Repeat(ch, Match(words, t)) + Filtered(words, t[Match(words, t)..], ch)
    ensures t[0] != 0 && Match(words, t) == 0 && Malformed(t) ==> Filtered(words, t, ch) == t
    ensures forall c: Code :: t[0] != 0 && Match(words, t) == 0 && Starts(t, c) ==>
              Filtered(words, t, ch) == Encode(c) + Filtered(words, t[|Encode(c)|..], ch)
  {
    MatchFromMeans(words, t, 1);
    forall c: Code | Starts(t, c) ensures CodeLen(t) == |Encode(c)| <= |t| && t[..|Encode(c)|] == Encode(c) {
      CodeLenIs(t, c);
    }
  }

  lemma {:induction false} FilterForNothing(t: seq<byte>, ch: byte)
    ensures Filtered({}, t, ch) == t
    decreases |t|
  {
    NoMatchFrom({}, t, 1);
    if t != [] && 0 < CodeLen(t) <= |t| { FilterForNothing(t[CodeLen(t)..], ch); }
  }

  /** Place `i` lies inside one of the leftmost, shortest matches. */
  ghost predicate Covered(words: set<Word>, t: seq<byte>, i: nat)
    decreases |t|
  {
    if t == [] || t[0] == 0 then false
    else if 0 < Match(words, t) <= |t| then
      i < Match(words, t) || Covered(words, t[Match(words, t)..], i - Match(words, t))
    else if 0 < CodeLen(t) <= |t| then CodeLen(t) <= i && Covered(words, t[CodeLen(t)..], i - CodeLen(t))
    else false
  }

  // ---- which places the filter comes by --------------------------------------------------

  /** From a place where `t` begins the filter goes on by the shortest keyword
      there, or else by one code point, or it stops. */
  ghost function Hop(words: set<Word>, t: seq<byte>): nat {
    if t == [] || t[0] == 0 then 0 else if Match(words, t) > 0 then Match(words, t) else CodeLen(t)
  }

  /** The filter comes by place `a`. */
  ghost predicate Stop(words: set<Word>, t: seq<byte>, a: nat) {
    a == 0 || exists b: nat :: b < a && b < |t| && Stop(words, t, b) && a == b + Hop(words, t[b..])
  }

  /** Place `i` lies in the shortest keyword at place `a`, where the filter comes by. */
  ghost predicate InMatchAt(words: set<Word>, t: seq<byte>, i: nat, a: nat) {
    a < |t| && t[a] != 0 && Stop(words, t, a) && a <= i < a + Match(words, t[a..])
  }

  lemma {:induction false} StopsBehind(words: set<Word>, t: seq<byte>, a: nat)
    requires t != [] && 0 < a && Stop(words, t, a)
    ensures a >= Hop(words, t) > 0
    decreases a
  {
    var b: nat :| b < a && b < |t| && Stop(words, t, b) && a == b + Hop(words, t[b..]);
    if b > 0 { StopsBehind(words, t, b); } else { assert t[0..] == t; }
  }

  lemma {:induction false} StopsShift(words: set<Word>, t: seq<byte>, n: nat, a: nat)
    requires t != [] && n == Hop(words, t) && 0 < n <= |t|
    ensures Stop(words, t[n..], a) ==> Stop(words, t, n + a)
    decreases a
  {
    hide Hop;
    if a == 0 {
      assert Stop(words, t, 0) && t[0..] == t;
    } else if Stop(words, t[n..], a) {
      var b: nat :| b < a && b < |t[n..]| && Stop(words, t[n..], b) && a == b + Hop(words, t[n..][b..]);
      StopsShift(words, t, n, b);
      assert t[n..][b..] == t[n + b..];
    }
  }

  lemma {:induction false} StopsShiftBack(words: set<Word>, t: seq<byte>, n: nat, a: nat)
    requires t != [] && n == Hop(words, t) && 0 < n <= |t|
    ensures Stop(words, t, n + a) ==> Stop(words, t[n..], a)
    decreases a
  {
    hide Hop;
    if a > 0 && Stop(words, t, n + a) {
      var b: nat :| b < n + a && b < |t| && Stop(words, t, b) && n + a == b + Hop(words, t[b..]);
      assert t[0..] == t;
      StopsBehind(words, t, b);
      StopsShiftBack(words, t, n, b - n);
      assert t[n..][b - n..] == t[b..];
    }
  }

  lemma CoveredStep(words: set<Word>, t: seq<byte>, i: nat)
    ensures var n := Hop(words, t);
            Covered(words, t, i) <==>
              (t != [] && t[0] != 0 && i < Match(words, t)) || (0 < n <= i && n <= |t| && Covered(words, t[n..], i - n))
  {
    MatchFromMeans(words, t, 1);
  }

  lemma InFirstMatch(words: set<Word>, t: seq<byte>, i: nat)
    ensures InMatchAt(words, t, i, 0) <==> t != [] && t[0] != 0 && i < Match(words, t)
  {
    assert t[0..] == t;
  }

  /** What the filter changes lies in a match at a place it comes by ... */
  lemma {:induction false} CoveredIsInMatch(words: set<Word>, t: seq<byte>, i: nat) returns (a: nat)
    requires Covered(words, t, i)
    ensures InMatchAt(words, t, i, a)
    decreases |t|
  {
    hide Covered, Match, Hop, Stop;
    CoveredStep(words, t, i);
    InFirstMatch(words, t, i);
    var n := Hop(words, t);
    if 0 < n <= i && n <= |t| && Covered(words, t[n..], i - n) {
      a := CoveredIsInMatch(words, t[n..], i - n);
      StopsShift(words, t, n, a);
      assert t[n..][a..] == t[n + a..];
      a := n + a;
    } else {
      a := 0;
    }
  }

  /** ... and it changes all of each such match. */
  lemma {:induction false} InMatchIsCovered(words: set<Word>, t: seq<byte>, i: nat, a: nat)
    requires InMatchAt(words, t, i, a)
    ensures Covered(words, t, i)
    decreases |t|
  {
    hide Covered, Match, Hop, Stop;
    CoveredStep(words, t, i);
    InFirstMatch(words, t, i);
    if a > 0 {
      var n := Hop(words, t);
      StopsBehind(words, t, a);
      StopsShiftBack(words, t, n, a - n);
      assert t[n..][a - n..] == t[a..];
      InMatchIsCovered(words, t[n..], i - n, a - n);
    }
  }

  lemma FilteredHop(words: set<Word>, t: seq<byte>, ch: byte)
    ensures var n, m, f := Hop(words, t), Match(words, t), Filtered(words, t, ch);
            && n <= |t| && (n == 0 ==> f == t) && (t != [] && t[0] != 0 && m > 0 ==> n == m)
            && (n > 0 ==> t[0] != 0 && f == (if m > 0 then Repeat(ch, n) else t[..n]) + Filtered(words, t[n..], ch))
  {
    MatchFromMeans(words, t, 1);
  }

  lemma {:induction false} FilteredAt(words: set<Word>, t: seq<byte>, ch: byte, i: nat)
    requires i < |t|
    ensures |Filtered(words, t, ch)| == |t|
    ensures Filtered(words, t, ch)[i] == if Covered(words, t, i) then ch else t[i]
    decreases |t|
  {
    hide Covered, Filtered, Match, Hop;
    var n := Hop(words, t);
    FilteredHop(words, t, ch);
    InFirstMatch(words, t, i);
    FilterLength(words, t, ch);
    CoveredStep(words, t, i);
    if 0 < n <= i { FilteredAt(words, t[n..], ch, i - n); }
  }

  /** The keyword at such a place is the shortest one there. */
  lemma MatchIsShortest(words: set<Word>, t: seq<byte>, i: nat, a: nat)
    requires InMatchAt(words, t, i, a)
    ensures var b := a + Match(words, t[a..]);
            a <= i < b <= |t| && Keyword(words, t[a..b]) && forall j :: a < j < b ==> !Keyword(words, t[a..j])
  {
    hide Keyword, MatchFrom;
    var r, m := t[a..], Match(words, t[a..]);
    MatchFromMeans(words, r, 1);
    assert r[..m] == t[a..a + m];
    forall j | a < j < a + m ensures !Keyword(words, t[a..j]) {
      assert r[..j - a] == t[a..j];
    }
  }

  /** The filter keeps the length and changes just the shortest keywords at the
      places it comes by. */
  lemma FilterChangesMatchesOnly(words: set<Word>, t: seq<byte>, ch: byte, i: nat)
    requires i < |t|
    ensures |Filtered(words, t, ch)| == |t|
    ensures Filtered(words, t, ch)[i] == if exists a: nat :: InMatchAt(words, t, i, a) then ch else t[i]
  {
    FilteredAt(words, t, ch, i);
    if Covered(words, t, i) {
      var a := CoveredIsInMatch(words, t, i);
    }
    if a: nat :| InMatchAt(words, t, i, a) {
      InMatchIsCovered(words, t, i, a);
    }
  }

  lemma {:induction false} FilterLength(words: set<Word>, t: seq<byte>, ch: byte)
    ensures |Filtered(words, t, ch)| == |t|
    decreases |t|
  {
    var m, n := Match(words, t), CodeLen(t);
    if t == [] || t[0] == 0 {
    } else if 0 < m <= |t| {
      FilterLength(words, t[m..], ch);
    } else if 0 < n <= |t| {
      FilterLength(words, t[n..], ch);
    }
  }

  // ---- after filtering ---------------------------------------------------------------------

  /** `ch` is an ASCII character that occurs in no keyword. */
  ghost predicate Foreign(words: set<Word>, ch: byte) {
    0 < ch < 0x80 && forall w :: w in words ==> ch !in w
  }

  lemma {:induction false} ForeignBytes(w: Word, ch: byte)
    requires ch < 0x80 && ch !in w
    ensures ch !in EncodeAll(w)
  {
    if w != [] { ForeignBytes(w[1..], ch); }
  }

  lemma KeywordHasNoForeign(words: set<Word>, ch: byte, b: seq<byte>)
    requires Foreign(words, ch)
    ensures Keyword(words, b) ==> ch !in b
  {
    if Keyword(words, b) {
      var w :| w in words && w != [] && EncodeAll(w) == b;
      ForeignBytes(w, ch);
    }
  }

  /** Where the filtered text begins with a keyword, so did the original. */
  lemma KeywordWasThere(words: set<Word>, t: seq<byte>, f: seq<byte>, ch: byte, j: nat)
    requires Foreign(words, ch) && |f| == |t| && j <= |t| && forall i :: 0 <= i < |t| ==> f[i] == t[i] || f[i] == ch
    ensures Keyword(words, f[..j]) ==> Keyword(words, t[..j])
  {
    KeywordHasNoForeign(words, ch, f[..j]);
    if Keyword(words, f[..j]) {
      forall i | 0 <= i < j ensures f[i] == t[i] { assert f[..j][i] in f[..j]; }
      assert f[..j] == t[..j];
    }
  }

  lemma NoNewMatch(words: set<Word>, t: seq<byte>, f: seq<byte>, ch: byte)
    requires Foreign(words, ch) && |f| == |t| && forall i :: 0 <= i < |t| ==> f[i] == t[i] || f[i] == ch
    requires Match(words, t) == 0
    ensures Match(words, f) == 0
  {
    MatchFromMeans(words, t, 1);
    forall j | 1 <= j <= |f| ensures !Keyword(words, f[..j]) { KeywordWasThere(words, t, f, ch, j); }
    NoMatchFrom(words, f, 1);
  }

  lemma NoMatchAtForeign(words: set<Word>, ch: byte, rest: seq<byte>)
    requires Foreign(words, ch)
    ensures Match(words, [ch] + rest) == 0 && CodeLen([ch] + rest) == 1
  {
    var t := [ch] + rest;
    OneByte(t, ch);
    CodeLenIs(t, ch);
    forall j | 1 <= j <= |t| ensures !Keyword(words, t[..j]) {
      KeywordHasNoForeign(words, ch, t[..j]);
      assert t[..j][0] == ch;
    }
    NoMatchFrom(words, t, 1);
  }

  lemma {:induction false} RepeatedIsClean(words: set<Word>, ch: byte, n: nat, rest: seq<byte>)
    requires Foreign(words, ch) && !Check(words, rest)
    ensures !Check(words, Repeat(ch, n) + rest)
    decreases n
  {
    if n == 0 {
      assert Repeat(ch, n) + rest == rest;
    } else {
      var more := Repeat(ch, n - 1) + rest;
      assert Repeat(ch, n) + rest == [ch] + more;
      NoMatchAtForeign(words, ch, more);
      RepeatedIsClean(words, ch, n - 1, rest);
      assert ([ch] + more)[1..] == more;
    }
  }

  lemma PlainStepIsClean(words: set<Word>, t: seq<byte>, f: seq<byte>, c: Code)
    requires Starts(t, c) && |Encode(c)| <= |f| && f[..|Encode(c)|] == Encode(c)
    requires Match(words, f) == 0 && !Check(words, f[|Encode(c)|..])
    ensures !Check(words, f)
  {
    assert Starts(f, c);
    CodeLenIs(f, c);
  }

  lemma FilterStep(words: set<Word>, t: seq<byte>, ch: byte, c: Code)
    requires Foreign(words, ch) && t != [] && t[0] != 0 && Match(words, t) == 0 && Starts(t, c)
    ensures var n, f := |Encode(c)|, Filtered(words, t, ch);
            n <= |f| && f[..n] == Encode(c) && f[n..] == Filtered(words, t[n..], ch) && Match(words, f) == 0
  {
    CodeLenIs(t, c);
    var f := Filtered(words, t, ch);
    FilterLength(words, t, ch);
    forall i | 0 <= i < |t| ensures f[i] == t[i] || f[i] == ch { FilteredAt(words, t, ch, i); }
    NoNewMatch(words, t, f, ch);
  }

  /** After filtering with such a character the check finds nothing. */
  lemma {:induction false} FilteredIsClean(words: set<Word>, t: seq<byte>, ch: byte)
    requires Foreign(words, ch)
    ensures !Check(words, Filtered(words, t, ch))
    decreases |t|
  {
    hide Encode, Foreign, Match;
    var m := Match(words, t);
    MatchFromMeans(words, t, 1);
    MatchIs(words, t);
    if t == [] || t[0] == 0 {
    } else if m > 0 {
      FilteredIsClean(words, t[m..], ch);
      RepeatedIsClean(words, ch, m, Filtered(words, t[m..], ch));
    } else if Malformed(t) {
    } else {
      var c: Code :| Starts(t, c);
      FilteredIsClean(words, t[|Encode(c)|..], ch);
      FilterStep(words, t, ch, c);
      PlainStepIsClean(words, t, Filtered(words, t, ch), c);
    }
  }

  lemma MatchIs(words: set<Word>, t: seq<byte>)
    ensures Match(words, t) == MatchFrom(words, t, 1) <= |t|
  {
    MatchFromMeans(words, t, 1);
  }

  // ---- texts of code points ----------------------------------------------------------------

  /** A keyword begins the text of code points. */
  ghost predicate Occurs(words: set<Word>, cs: seq<Code>, i: nat) {
    exists w :: w in words && w != [] && i <= |cs| && w <= cs[i..]
  }

  lemma OccurrenceMatches(words: set<Word>, cs: seq<Code>, w: Word)
    requires w in words && w != [] && w <= cs
    ensures Match(words, EncodeAll(cs) + [0]) > 0
  {
    var t := EncodeAll(cs) + [0];
    MatchFromMeans(words, t, 1);
    EncodeConcat(w, cs[|w|..]);
    assert cs == w + cs[|w|..];
    var m := |EncodeAll(w)|;
    assert t[..m] == EncodeAll(w) && m > 0;
    assert Keyword(words, t[..m]);
  }

  lemma WithinZero(w: Word, cs: seq<Code>)
    ensures (w <= cs + [0] || cs + [0] <= w) ==> w <= cs || 0 in w
  {
    if |w| > |cs| { assert (cs + [0])[|cs|] == 0; }
  }

  lemma MatchOccurs(words: set<Word>, cs: seq<Code>) returns (w: Word)
    requires (forall w :: w in words ==> 0 !in w) && Match(words, EncodeAll(cs) + [0]) > 0
    ensures w in words && w != [] && w <= cs && |EncodeAll(w)| == Match(words, EncodeAll(cs) + [0])
  {
    var t := EncodeAll(cs) + [0];
    MatchFromMeans(words, t, 1);
    w :| w in words && w != [] && EncodeAll(w) == t[..Match(words, t)];
    EncodeMore(cs, 0);
    hide EncodeAll, Match;
    OneContinues(t, w, cs + [0]);
    WithinZero(w, cs);
  }

  lemma MatchIsOccurrence(words: set<Word>, cs: seq<Code>)
    requires forall w :: w in words ==> 0 !in w
    ensures Match(words, EncodeAll(cs) + [0]) > 0 <==> Occurs(words, cs, 0)
  {
    assert cs[0..] == cs;
    if Occurs(words, cs, 0) {
      var w :| w in words && w != [] && w <= cs[0..];
      OccurrenceMatches(words, cs, w);
    }
    if Match(words, EncodeAll(cs) + [0]) > 0 {
      var w := MatchOccurs(words, cs);
      assert w <= cs[0..];
    }
  }

  /** A text of code points from code point `k` on. */
  lemma TextFrom(words: set<Word>, cs: seq<Code>, k: nat, i: nat)
    requires 0 < k <= i <= |cs|
    ensures var t, n := EncodeAll(cs) + [0], |EncodeAll(cs[..k])|;
            0 < n <= |EncodeAll(cs[..i])| < |t| && t[n..] == EncodeAll(cs[k..]) + [0]
            && |EncodeAll(cs[..i])| == n + |EncodeAll(cs[k..][..i - k])|
    ensures Occurs(words, cs, i) == Occurs(words, cs[k..], i - k)
  {
    hide Encode, EncodeAll;
    LessText(cs, 0, k);
    EncodeConcat(cs[..k], cs[k..]);
    EncodeConcat(cs[..i], cs[i..]);
    EncodeConcat(cs[..k], cs[k..][..i - k]);
    assert cs == cs[..k] + cs[k..];
    assert cs == cs[..i] + cs[i..];
    assert cs[..i] == cs[..k] + cs[k..][..i - k];
    assert cs[k..][i - k..] == cs[i..];
  }

  /** On well-formed text the filter goes on by whole code points. */
  lemma HopIsCodes(words: set<Word>, cs: seq<Code>) returns (k: nat)
    requires 0 !in cs && cs != [] && forall w :: w in words ==> 0 !in w
    ensures var t := EncodeAll(cs) + [0];
            && 0 < k <= |cs| && t[0] != 0 && Hop(words, t) == |EncodeAll(cs[..k])|
            && (Match(words, t) > 0 <==> Occurs(words, cs, 0))
            && if Match(words, t) > 0 then Hop(words, t) == Match(words, t) else k == 1
  {
    hide Encode, EncodeAll, Match, MatchFrom;
    var t := EncodeAll(cs) + [0];
    EncodesNonzero(cs[0]);
    EncodeAllStep(cs[0], cs[1..]);
    EncodeAllStep(cs[0], []);
    EncodeNothing();
    assert cs == [cs[0]] + cs[1..] && cs[..1] == [cs[0]] + [];
    assert Encode(cs[0])[0] in Encode(cs[0]) && t[0] == Encode(cs[0])[0] && Encode(cs[0]) <= t;
    MatchIsOccurrence(words, cs);
    CodeLenIs(t, cs[0]);
    k := 1;
    if Match(words, t) > 0 {
      var w := MatchOccurs(words, cs);
      k := |w|;
      assert cs[..k] == w;
    }
  }

  /** On well-formed text the filter changes the first byte of each occurrence of a keyword. */
  lemma {:induction false} OccurrenceIsCovered(words: set<Word>, cs: seq<Code>, i: nat)
    requires 0 !in cs && (forall w :: w in words ==> 0 !in w) && i < |cs| && Occurs(words, cs, i)
    ensures var t, p := EncodeAll(cs) + [0], |EncodeAll(cs[..i])|;
            Covered(words, t, p) && exists a: nat :: InMatchAt(words, t, p, a)
    decreases |cs|
  {
    hide Covered, Occurs, Match, Hop, EncodeAll;
    var t, p := EncodeAll(cs) + [0], |EncodeAll(cs[..i])|;
    CoveredStep(words, t, p);
    var k := HopIsCodes(words, cs);
    if k <= i {
      TextFrom(words, cs, k, i);
      OccurrenceIsCovered(words, cs[k..], i - k);
    } else {
      LessText(cs, i, k);
    }
    var a := CoveredIsInMatch(words, t, p);
  }

  lemma LessText(cs: seq<Code>, i: nat, k: nat)
    requires i < k <= |cs|
    ensures |EncodeAll(cs[..i])| < |EncodeAll(cs[..k])|
  {
    EncodeConcat(cs[..i], cs[i..k]);
    assert cs[..k] == cs[..i] + cs[i..k];
  }

  /** On well-formed text the check is true just when some keyword occurs somewhere. */
  lemma {:induction false} CheckFindsOccurrences(words: set<Word>, cs: seq<Code>)
    requires 0 !in cs && forall w :: w in words ==> 0 !in w
    ensures Check(words, EncodeAll(cs) + [0]) <==> exists i :: 0 <= i < |cs| && Occurs(words, cs, i)
  {
    if cs == [] {
      assert EncodeAll(cs) + [0] == [0];
    } else {
      hide Occurs, Check, EncodeAll;
      CheckTextStep(words, cs);
      CheckFindsOccurrences(words, cs[1..]);
      OccursBehind(words, cs);
    }
  }

  lemma CheckTextStep(words: set<Word>, cs: seq<Code>)
    requires 0 !in cs && cs != [] && forall w :: w in words ==> 0 !in w
    ensures Check(words, EncodeAll(cs) + [0]) <==> Occurs(words, cs, 0) || Check(words, EncodeAll(cs[1..]) + [0])
  {
    hide Occurs, EncodeAll, Encode, Match;
    var t, rest := EncodeAll(cs) + [0], EncodeAll(cs[1..]) + [0];
    assert cs == [cs[0]] + cs[1..];
    EncodeAllStep(cs[0], cs[1..]);
    EncodesNonzero(cs[0]);
    assert t == Encode(cs[0]) + rest;
    assert Encode(cs[0])[0] in Encode(cs[0]) && t[0] == Encode(cs[0])[0];
    CodeLenIs(t, cs[0]);
    MatchIsOccurrence(words, cs);
    assert t[|Encode(cs[0])|..] == rest;
  }

  lemma OccursBehind(words: set<Word>, cs: seq<Code>)
    requires cs != []
    ensures (exists i :: 0 <= i < |cs| && Occurs(words, cs, i)) <==>
              Occurs(words, cs, 0) || exists i :: 0 <= i < |cs[1..]| && Occurs(words, cs[1..], i)
  {
    forall i | 0 <= i < |cs| - 1 ensures Occurs(words, cs[1..], i) == Occurs(words, cs, i + 1) {
      assert cs[1..][i..] == cs[i + 1..];
    }
    hide Occurs;
    if i :| 0 < i < |cs| && Occurs(words, cs, i) {
      assert Occurs(words, cs[1..], i - 1);
    }
    if i :| 0 <= i < |cs[1..]| && Occurs(words, cs[1..], i) {
      assert Occurs(words, cs, i + 1);
    }
  }
}
