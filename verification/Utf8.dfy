/** The streaming decoder of src/tokenizer.cpp: bytes are released at character boundaries, and a
    stretch of invalid bytes becomes one replacement character in front of the next valid one. */
module Utf8 {
  import opened Wrappers
  import opened Vectors

  type Text = seq<Byte>

  const REPLACEMENT: Text := [0xef, 0xbf, 0xbd]

  /** The length a lead byte announces (section 3 of RFC 3629, by bit pattern only); 0 for no lead byte. */
  function LeadLength(c: Byte): nat {
    if c <= 0x7f then 1
    else if 0xc0 <= c <= 0xdf then 2
    else if 0xe0 <= c <= 0xef then 3
    else if 0xf0 <= c <= 0xf7 then 4
    else 0
  }

  predicate Continuation(c: Byte) {
    0x80 <= c <= 0xbf
  }

  /** How many of the first `max` bytes are continuation bytes without a gap. */
  function Continuations(s: Text, max: nat): (n: nat)
    ensures n <= max && n <= |s| && (forall i | 0 <= i < n :: Continuation(s[i]))
    ensures n < max && n < |s| ==> !Continuation(s[n])
  {
    if max == 0 || s == [] || !Continuation(s[0]) then 0 else 1 + Continuations(s[1..], max - 1)
  }

  /** What the text starts with: a character of `n` bytes, the start of one that the text does not
      complete, or `n` bytes that cannot start one. */
  datatype Head = Char(n: nat) | Partial | Bad(n: nat)

  function HeadOf(s: Text): (h: Head)
    requires s != []
    ensures !h.Partial? ==> 0 < h.n <= |s|
  {
    var len := LeadLength(s[0]);
    if len == 0 then Bad(1)
    else
      var n := Continuations(s[1..], len - 1);
      if n == len - 1 then Char(len) else if 1 + n == |s| then Partial else Bad(1 + n)
  }

  /** What is released, and what is held back for the next call. */
  datatype Decoded = Decoded(out: Text, pending: Text)

  /** The reference: `s` starts with `k` invalid bytes; characters are released one by one. */
  function Decode(s: Text, k: nat): (d: Decoded)
    requires k <= |s|
    decreases |s|, |s| - k
  {
    if k == |s| then Decoded([], s)
    else
      match HeadOf(s[k..])
      case Partial => Decoded([], s)
      case Bad(n) => Decode(s, k + n)
      case Char(n) =>
        var rest := Decode(s[k + n..], 0);
        Decoded((if k > 0 then REPLACEMENT else []) + s[k..k + n] + rest.out, rest.pending)
  }

  lemma DecodeChar(s: Text, k: nat)
    requires k < |s| && HeadOf(s[k..]).Char?
    ensures var n := HeadOf(s[k..]).n;
            Decode(s, k) == Decoded((if k > 0 then REPLACEMENT else []) + s[k..k + n] + Decode(s[k + n..], 0).out,
                                    Decode(s[k + n..], 0).pending)
  {
  }

  lemma DecodeBad(s: Text, k: nat)
    requires k < |s| && HeadOf(s[k..]).Bad?
    ensures Decode(s, k) == Decode(s, k + HeadOf(s[k..]).n)
  {
  }

  lemma DecodeEnd(s: Text, k: nat)
    requires k <= |s| && (k < |s| ==> HeadOf(s[k..]).Partial?)
    ensures Decode(s, k) == Decoded([], s)
  {
  }

  /** Text made of whole characters. */
  predicate WellFormed(s: Text) {
    s == [] || (HeadOf(s).Char? && WellFormed(s[HeadOf(s).n..]))
  }

  /** The bit patterns of section 3 of RFC 3629 alone: 0xxxxxxx, 110xxxxx 10xxxxxx, and so on. */
  predicate Pattern(s: Text) {
    || s == []
    || (s[0] < 0x80 && Pattern(s[1..]))
    || (0xc0 <= s[0] < 0xe0 && |s| >= 2 && s[1] / 0x40 == 2 && Pattern(s[2..]))
    || (0xe0 <= s[0] < 0xf0 && |s| >= 3 && s[1] / 0x40 == s[2] / 0x40 == 2 && Pattern(s[3..]))
    || (0xf0 <= s[0] < 0xf8 && |s| >= 4 && s[1] / 0x40 == s[2] / 0x40 == s[3] / 0x40 == 2 && Pattern(s[4..]))
  }

  lemma {:induction false} WellFormedIsPattern(s: Text)
    ensures WellFormed(s) <==> Pattern(s)
    decreases |s|
  {
    if s != [] {
      CharIsPattern(s);
      hide HeadOf;
      if |s| >= 1 { WellFormedIsPattern(s[1..]); }
      if |s| >= 2 { WellFormedIsPattern(s[2..]); }
      if |s| >= 3 { WellFormedIsPattern(s[3..]); }
      if |s| >= 4 { WellFormedIsPattern(s[4..]); }
    }
  }

  /** Bytes that continue a character are 10xxxxxx. */
  predicate Tail(s: Text, n: nat) {
    n <= |s| && forall i | 1 <= i < n :: s[i] / 0x40 == 2
  }

  lemma CharIsPattern(s: Text)
    requires s != []
    ensures HeadOf(s) == Char(1) <==> s[0] < 0x80
    ensures HeadOf(s) == Char(2) <==> 0xc0 <= s[0] < 0xe0 && Tail(s, 2)
    ensures HeadOf(s) == Char(3) <==> 0xe0 <= s[0] < 0xf0 && Tail(s, 3)
    ensures HeadOf(s) == Char(4) <==> 0xf0 <= s[0] < 0xf8 && Tail(s, 4)
    ensures HeadOf(s).Char? ==> HeadOf(s).n <= 4
  {
    var n := LeadLength(s[0]);
    if n > 0 {
      if Continuations(s[1..], n - 1) == n - 1 {
        assert forall i | 1 <= i < n :: s[i] == s[1..][i - 1];
      }
      if Tail(s, n) {
        AllContinuations(s[1..], n - 1);
      }
    }
  }

  /** Bytes that no character can contain at their place become one replacement character, EF BF BD, in front of
      the next character. */
  lemma JunkReplaced(junk: Text, c: Text, rest: Text)
    requires junk != [] && forall i | 0 <= i < |junk| :: 0x80 <= junk[i] < 0xc0 || junk[i] >= 0xf8
    requires c != [] && HeadOf(c) == Char(|c|)
    ensures Decode(junk + c + rest, 0) == Decoded([0xef, 0xbf, 0xbd] + c + Decode(rest, 0).out, Decode(rest, 0).pending)
  {
    hide Decode, HeadOf;
    var s := junk + c + rest;
    JunkSkipped(s, |junk|, 0);
    CharAfter(s, junk, c, rest);
  }

  /** A character behind `k` bytes that are to be replaced. */
  lemma CharAfter(s: Text, junk: Text, c: Text, rest: Text)
    requires junk != [] && c != [] && HeadOf(c) == Char(|c|) && s == junk + c + rest
    ensures Decode(s, |junk|) == Decoded([0xef, 0xbf, 0xbd] + c + Decode(rest, 0).out, Decode(rest, 0).pending)
  {
    hide Decode, HeadOf;
    assert s[|junk|..] == c + rest;
    HeadStable(c, rest);
    DecodeChar(s, |junk|);
    assert s[|junk|..|junk| + |c|] == c && s[|junk| + |c|..] == rest;
  }

  /** A character that breaks off is replaced too. */
  lemma BrokenReplaced(lead: Text, c: Text, rest: Text)
    requires lead != [] && HeadOf(lead) == Partial && c != [] && HeadOf(c) == Char(|c|)
    ensures Decode(lead + c + rest, 0) == Decoded([0xef, 0xbf, 0xbd] + c + Decode(rest, 0).out, Decode(rest, 0).pending)
  {
    hide Decode;
    var s := lead + c + rest;
    assert !Continuation(c[0]);
    BrokenHead(lead, c + rest);
    hide HeadOf;
    assert lead + (c + rest) == s && s[0..] == s;
    DecodeBad(s, 0);
    CharAfter(s, lead, c, rest);
  }

  lemma BrokenHead(lead: Text, t: Text)
    requires lead != [] && HeadOf(lead) == Partial && t != [] && !Continuation(t[0])
    ensures HeadOf(lead + t) == Bad(|lead|)
  {
    var n := |lead| - 1;
    assert (lead + t)[1..] == lead[1..] + t;
    ContinuationsThen(lead[1..], t, LeadLength(lead[0]) - 1);
  }

  lemma {:induction false} ContinuationsThen(s: Text, t: Text, max: nat)
    requires Continuations(s, max) == |s| && t != [] && !Continuation(t[0])
    ensures Continuations(s + t, max) == |s|
  {
    if s != [] {
      assert (s + t)[1..] == s[1..] + t;
      ContinuationsThen(s[1..], t, max - 1);
    } else {
      assert s + t == t;
    }
  }

  lemma {:induction false} JunkSkipped(s: Text, n: nat, k: nat)
    requires k <= n <= |s| && forall i | 0 <= i < n :: 0x80 <= s[i] < 0xc0 || s[i] >= 0xf8
    ensures Decode(s, k) == Decode(s, n)
    decreases n - k
  {
    hide Decode;
    if k < n {
      assert s[k..][0] == s[k];
      DecodeBad(s, k);
      JunkSkipped(s, n, k + 1);
    }
  }

  lemma {:induction false} WellFormedConcat(a: Text, b: Text)
    requires WellFormed(a) && WellFormed(b)
    ensures WellFormed(a + b)
  {
    hide HeadOf;
    if a == [] {
      assert a + b == b;
    } else {
      var n := HeadOf(a).n;
      HeadStable(a, b);
      WellFormedConcat(a[n..], b);
      assert (a + b)[n..] == a[n..] + b;
    }
  }

  lemma {:induction false} ContinuationsStable(s: Text, t: Text, max: nat)
    ensures Continuations(s, max) < |s| || Continuations(s, max) == max ==> Continuations(s + t, max) == Continuations(s, max)
  {
    if max > 0 && s != [] && Continuation(s[0]) {
      ContinuationsStable(s[1..], t, max - 1);
      assert (s + t)[1..] == s[1..] + t;
    }
  }

  /** More text changes a head only when the text ended inside a character. */
  lemma HeadStable(s: Text, t: Text)
    requires s != [] && !HeadOf(s).Partial?
    ensures HeadOf(s + t) == HeadOf(s)
  {
    var len := LeadLength(s[0]);
    if len > 0 {
      ContinuationsStable(s[1..], t, len - 1);
      assert (s + t)[1..] == s[1..] + t;
    }
  }

  /** Everything released is made of whole characters. */
  lemma {:induction false} OutputWellFormed(s: Text, k: nat)
    requires k <= |s|
    ensures WellFormed(Decode(s, k).out)
    decreases |s|, |s| - k
  {
    hide HeadOf, WellFormed;
    ReplacementWellFormed(false);
    if k < |s| {
      match HeadOf(s[k..])
      case Partial =>
      case Bad(n) => OutputWellFormed(s, k + n);
      case Char(n) =>
        OutputWellFormed(s[k + n..], 0);
        HeadIsWellFormed(s[k..]);
        assert s[k..][..n] == s[k..k + n];
        ReplacementWellFormed(k > 0);
        WellFormedConcat(if k > 0 then REPLACEMENT else [], s[k..k + n]);
        WellFormedConcat((if k > 0 then REPLACEMENT else []) + s[k..k + n], Decode(s[k + n..], 0).out);
    }
  }

  lemma HeadIsWellFormed(s: Text)
    requires s != [] && HeadOf(s).Char?
    ensures WellFormed(s[..HeadOf(s).n])
  {
    CharWellFormed(s, LeadLength(s[0]));
  }

  lemma ReplacementWellFormed(junk: bool)
    ensures WellFormed(if junk then REPLACEMENT else [])
  {
    CharWellFormed(REPLACEMENT, 3);
    assert REPLACEMENT[..3] == REPLACEMENT;
  }

  lemma CharWellFormed(s: Text, n: nat)
    requires s != [] && n > 0
    requires LeadLength(s[0]) == n && n <= |s| && forall i | 1 <= i < n :: Continuation(s[i])
    ensures HeadOf(s) == Char(n) && WellFormed(s[..n])
  {
    AllContinuations(s[1..], n - 1);
    AllContinuations(s[..n][1..], n - 1);
    assert s[..n][n..] == [];
  }

  lemma {:induction false} AllContinuations(s: Text, max: nat)
    requires max <= |s| && forall i | 0 <= i < max :: Continuation(s[i])
    ensures Continuations(s, max) == max
  {
    if max > 0 {
      AllContinuations(s[1..], max - 1);
    }
  }

  /** Text made of whole characters comes out as it is. */
  lemma {:induction false} ValidUnchanged(s: Text)
    requires WellFormed(s)
    ensures Decode(s, 0) == Decoded(s, [])
  {
    hide HeadOf, Decode;
    if s != [] {
      var n := HeadOf(s).n;
      assert s[0..] == s;
      ValidUnchanged(s[n..]);
      DecodeChar(s, 0);
      assert s == s[0..n] + s[n..];
    } else {
      DecodeEnd(s, 0);
    }
  }

  /** What is held back is the end of the input. */
  lemma {:induction false} PendingIsSuffix(s: Text, k: nat)
    requires k <= |s|
    ensures |Decode(s, k).pending| <= |s| && Decode(s, k).pending == s[|s| - |Decode(s, k).pending|..]
    decreases |s|, |s| - k
  {
    hide HeadOf;
    if k < |s| {
      match HeadOf(s[k..])
      case Partial =>
      case Bad(n) => PendingIsSuffix(s, k + n);
      case Char(n) => PendingIsSuffix(s[k + n..], 0);
    }
  }

  /** Of text that valid text can start with, less than one character is held back. */
  lemma {:induction false} PendingShort(s: Text, more: Text)
    requires WellFormed(s + more)
    ensures |Decode(s, 0).pending| <= 3
    decreases |s|
  {
    if s != [] {
      assert s[0..] == s;
      if HeadOf(s).Partial? {
        DecodeEnd(s, 0);
      } else {
        var n := HeadOf(s).n;
        HeadStable(s, more);
        assert (s + more)[n..] == s[n..] + more;
        DecodeChar(s, 0);
        PendingShort(s[n..], more);
      }
    }
  }

  lemma {:induction false} InvalidPending(s: Text, k: nat)
    requires k <= |s| && forall i | 0 <= i < |s| :: s[i] == 0x80
    ensures Decode(s, k) == Decoded([], s)
    decreases |s| - k
  {
    hide Decode;
    if k < |s| {
      assert s[k] == 0x80 && s[k..][0] == s[k];
      DecodeBad(s, k);
      InvalidPending(s, k + 1);
    } else {
      DecodeEnd(s, k);
    }
  }

  /** Invalid stretches lead from offset `from` to offset `k`. */
  predicate Skips(s: Text, from: nat, k: nat)
    decreases k - from
  {
    from <= k <= |s| && (from < k ==> HeadOf(s[from..]).Bad? && Skips(s, from + HeadOf(s[from..]).n, k))
  }

  lemma {:induction false} SkipsSame(s: Text, from: nat, k: nat)
    requires Skips(s, from, k)
    ensures Decode(s, from) == Decode(s, k)
    decreases k - from
  {
    hide HeadOf;
    if from < k {
      SkipsSame(s, from + HeadOf(s[from..]).n, k);
    }
  }

  lemma {:induction false} SkipsMore(s: Text, t: Text, from: nat, k: nat)
    requires Skips(s, from, k)
    ensures Skips(s + t, from, k)
    decreases k - from
  {
    hide HeadOf;
    if from < k {
      HeadStable(s[from..], t);
      assert (s + t)[from..] == s[from..] + t;
      SkipsMore(s, t, from + HeadOf(s[from..]).n, k);
    }
  }

  lemma {:induction false} SkipsOn(s: Text, from: nat, k: nat)
    requires Skips(s, from, k) && k < |s| && HeadOf(s[k..]).Bad?
    ensures Skips(s, from, k + HeadOf(s[k..]).n)
    decreases k - from
  {
    hide HeadOf;
    if from < k {
      SkipsOn(s, from + HeadOf(s[from..]).n, k);
    }
  }

  /** Cutting the input anywhere changes nothing: decode the first part, then what it held back
      followed by the second part. */
  lemma {:induction false} CutAnywhere(s: Text, t: Text, k: nat)
    requires Skips(s, 0, k)
    ensures var d := Decode(s, k);
            var e := Decode(d.pending + t, 0);
            Decode(s + t, k) == Decoded(d.out + e.out, e.pending)
    decreases |s|, |s| - k
  {
    hide HeadOf, Decode;
    if k < |s| && !HeadOf(s[k..]).Partial? {
      var n := HeadOf(s[k..]).n;
      assert (s + t)[k..] == s[k..] + t;
      HeadStable(s[k..], t);
      if HeadOf(s[k..]).Bad? {
        SkipsOn(s, 0, k);
        DecodeBad(s, k);
        DecodeBad(s + t, k);
        CutAnywhere(s, t, k + n);
      } else {
        DecodeChar(s, k);
        DecodeChar(s + t, k);
        CutAnywhere(s[k + n..], t, 0);
        assert (s + t)[k + n..] == s[k + n..] + t && (s + t)[k..k + n] == s[k..k + n];
      }
    } else {
      DecodeEnd(s, k);
      SkipsMore(s, t, 0, k);
      SkipsSame(s + t, 0, k);
    }
  }

  /** Nothing of what is held back can be released without more. */
  lemma PendingSettled(s: Text)
    ensures Decode(Decode(s, 0).pending, 0) == Decoded([], Decode(s, 0).pending)
  {
    hide Decode;
    var d := Decode(s, 0);
    CutAnywhere(s, [], 0);
    assert s + [] == s && d.pending + [] == d.pending;
    assert d.out + Decode(d.pending, 0).out == d.out;
  }

  function DecodePieces(pending: Text, pieces: seq<Text>): Decoded
    decreases |pieces|
  {
    if pieces == [] then Decoded([], pending)
    else
      var d := Decode(pending + pieces[0], 0);
      var e := DecodePieces(d.pending, pieces[1..]);
      Decoded(d.out + e.out, e.pending)
  }

  /** Decoding piece by piece is decoding the whole, for every way to cut the text. */
  lemma {:induction false} ChunkInvariant(pending: Text, pieces: seq<Text>)
    requires Decode(pending, 0) == Decoded([], pending)
    ensures DecodePieces(pending, pieces) == Decode(pending + Concat(pieces), 0)
    decreases |pieces|
  {
    hide Decode, HeadOf;
    if pieces == [] {
      assert pending + [] == pending;
    } else {
      ConcatFirst(pieces);
      var s := pending + pieces[0];
      var d := Decode(s, 0);
      PendingSettled(s);
      ChunkInvariant(d.pending, pieces[1..]);
      CutAnywhere(s, Concat(pieces[1..]), 0);
      assert pending + Concat(pieces) == s + Concat(pieces[1..]);
    }
  }
}
