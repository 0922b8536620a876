/** Tokenizer::encode of src/tokenizer.cpp: special tokens and single bytes first, then greedy merging of
    adjacent pairs by score, in place. */
module Bpe {
  import opened Wrappers
  import opened Utf8
  import opened StreamDecoder

  const NO_SCORE: real := -10000000000.0

  /** `find` is the binary search over the regular tokens, those before `bosId`. */
  datatype Vocab = Vocab(pieces: seq<Text>, scores: seq<real>, bosId: nat, find: Text -> Option<nat>) {
    ghost predicate Valid() {
      && |pieces| == |scores| && bosId < |pieces| && (forall i | 0 <= i < |pieces| :: pieces[i] != [])
      && (forall s: Text :: find(s).Some? ==> find(s).value < bosId && pieces[find(s).value] == s)
      && (forall i: nat | i < bosId :: find(pieces[i]).Some?)
      && (forall b: Byte | b != 0 :: find([b]).Some?)
    }

    /** The first special token that the text starts with. */
    function FindSpecial(text: Text, id: nat): (r: Option<nat>)
      ensures r == None <==> forall k | id <= k < |pieces| :: !(pieces[k] <= text)
      ensures r.Some? ==>
                id <= r.value < |pieces| && pieces[r.value] <= text && forall k | id <= k < r.value :: !(pieces[k] <= text)
      decreases |pieces| - id
    {
      if id >= |pieces| then None else if pieces[id] <= text then Some(id) else FindSpecial(text, id + 1)
    }

    /** A C string. */
    static predicate NoNul(text: Text) {
      forall i | 0 <= i < |text| :: text[i] != 0
    }

    /** The token that takes the front of the text: a special token, or a single byte. */
    function FirstToken(text: Text, addSpecial: bool): (id: nat)
      requires Valid() && text != [] && NoNul(text)
      ensures id < |pieces| && pieces[id] != [] && pieces[id] <= text && (!addSpecial ==> id < bosId)
    {
      var special := FindSpecial(text, bosId);
      if addSpecial && special.Some? then special.value
      else
        assert find([text[0]]).Some?;
        find([text[0]]).value
    }

    /** The tokens before merging. */
    function Initial(text: Text, addSpecial: bool): seq<nat>
      requires Valid() && NoNul(text)
      decreases |text|
    {
      if text == [] then []
      else [FirstToken(text, addSpecial)] + Initial(text[|pieces[FirstToken(text, addSpecial)]|..], addSpecial)
    }

    predicate Ids(ts: seq<nat>) {
      forall i | 0 <= i < |ts| :: ts[i] < |pieces|
    }

    /** The regular token that the pair at `i` spells, if it scores at all. */
    function PairAt(ts: seq<nat>, i: nat): (r: Option<nat>)
      ensures r.Some? ==> i + 1 < |ts| && r.value < |scores| && scores[r.value] > NO_SCORE
    {
      if i + 1 < |ts| && ts[i] < |pieces| && ts[i + 1] < |pieces| then
        var id := find(pieces[ts[i]] + pieces[ts[i + 1]]);
        if id.Some? && id.value < |scores| && scores[id.value] > NO_SCORE then id else None
      else None
    }

    function ScoreAt(ts: seq<nat>, i: nat): real {
      if PairAt(ts, i).Some? then scores[PairAt(ts, i).value] else NO_SCORE
    }

    lemma PairSpells(ts: seq<nat>, i: nat)
      requires Valid() && PairAt(ts, i).Some?
      ensures PairAt(ts, i).value < bosId && ts[i] < |pieces| && ts[i + 1] < |pieces|
      ensures pieces[PairAt(ts, i).value] == pieces[ts[i]] + pieces[ts[i + 1]]
    {
    }

    /** The position of the best pair among the first `k`: the highest score, leftmost. */
    function Best(ts: seq<nat>, k: nat): (r: Option<nat>)
      ensures r.Some? ==> r.value < k && PairAt(ts, r.value).Some?
    {
      if k == 0 then None
      else
        var b := Best(ts, k - 1);
        if PairAt(ts, k - 1).Some? && (b.None? || ScoreAt(ts, k - 1) > ScoreAt(ts, b.value)) then Some(k - 1) else b
    }

    lemma {:induction false} BestIsBest(ts: seq<nat>, k: nat)
      ensures Best(ts, k) == None <==> forall i | 0 <= i < k :: PairAt(ts, i) == None
      ensures Best(ts, k).Some? ==> forall i | 0 <= i < k && PairAt(ts, i).Some? ::
                && ScoreAt(ts, i) <= ScoreAt(ts, Best(ts, k).value)
                && (i < Best(ts, k).value ==> ScoreAt(ts, i) < ScoreAt(ts, Best(ts, k).value))
    {
      hide PairAt, ScoreAt;
      if k > 0 {
        BestIsBest(ts, k - 1);
      }
    }

    function Merge(ts: seq<nat>, at: nat): (r: seq<nat>)
      requires PairAt(ts, at).Some?
      ensures |r| == |ts| - 1
    {
      ts[..at] + [PairAt(ts, at).value] + ts[at + 2..]
    }

    /** Merge the best pair until none is left. */
    function MergeAll(ts: seq<nat>): (r: seq<nat>)
      ensures |r| <= |ts|
      decreases |ts|
    {
      var best := Best(ts, |ts|);
      if best.None? then ts else MergeAll(Merge(ts, best.value))
    }

    lemma {:induction false} PiecesConcat(a: seq<nat>, b: seq<nat>)
      ensures Pieces(pieces, a + b) == Pieces(pieces, a) + Pieces(pieces, b)
    {
      if b == [] {
        assert a + b == a;
      } else {
        PiecesConcat(a, b[..|b| - 1]);
        assert (a + b)[..|a + b| - 1] == a + b[..|b| - 1];
      }
    }

    lemma PieceOf(t: nat)
      requires t < |pieces|
      ensures Pieces(pieces, [t]) == pieces[t]
    {
      assert [t][..0] == [];
      assert Pieces(pieces, []) == [];
    }

    lemma MergeKeepsText(ts: seq<nat>, at: nat)
      requires Valid() && Ids(ts) && PairAt(ts, at).Some?
      ensures Ids(Merge(ts, at)) && Pieces(pieces, Merge(ts, at)) == Pieces(pieces, ts)
    {
      hide Pieces;
      PairSpells(ts, at);
      hide PairAt;
      var id := PairAt(ts, at).value;
      PieceOf(id);
      PieceOf(ts[at]);
      PieceOf(ts[at + 1]);
      PiecesConcat(ts[..at] + [id], ts[at + 2..]);
      PiecesConcat(ts[..at], [id]);
      assert ts == ts[..at] + [ts[at], ts[at + 1]] + ts[at + 2..];
      PiecesConcat(ts[..at] + [ts[at], ts[at + 1]], ts[at + 2..]);
      PiecesConcat(ts[..at], [ts[at], ts[at + 1]]);
      assert [ts[at], ts[at + 1]] == [ts[at]] + [ts[at + 1]];
      PiecesConcat([ts[at]], [ts[at + 1]]);
    }

    /** Merging keeps the text and ends where no pair is left to merge. */
    lemma {:induction false} MergedText(ts: seq<nat>)
      requires Valid() && Ids(ts)
      ensures Ids(MergeAll(ts)) && Pieces(pieces, MergeAll(ts)) == Pieces(pieces, ts)
      ensures forall i: nat :: PairAt(MergeAll(ts), i) == None
      decreases |ts|
    {
      hide PairAt, Merge, Pieces, Valid;
      BestIsBest(ts, |ts|);
      if Best(ts, |ts|).Some? {
        var at := Best(ts, |ts|).value;
        MergeKeepsText(ts, at);
        MergedText(Merge(ts, at));
      } else {
        assert forall i: nat :: PairAt(ts, i).Some? ==> i < |ts|;
      }
    }

    predicate Regular(ts: seq<nat>) {
      forall i | 0 <= i < |ts| :: ts[i] < bosId
    }

    /** Regular tokens stay regular. */
    lemma {:induction false} MergedRegular(ts: seq<nat>)
      requires Valid() && Regular(ts)
      ensures Regular(MergeAll(ts))
      decreases |ts|
    {
      hide PairAt, Valid;
      if Best(ts, |ts|).Some? {
        var at := Best(ts, |ts|).value;
        PairSpells(ts, at);
        MergedRegular(Merge(ts, at));
      }
    }

    /** The tokens before merging spell the text, one byte or more each. */
    lemma {:induction false} InitialText(text: Text, addSpecial: bool)
      requires Valid() && NoNul(text)
      ensures Ids(Initial(text, addSpecial)) && |Initial(text, addSpecial)| <= |text|
      ensures Pieces(pieces, Initial(text, addSpecial)) == text && (!addSpecial ==> Regular(Initial(text, addSpecial)))
      decreases |text|
    {
      hide Pieces, FirstToken;
      if text == [] {
        NoPieces();
      } else {
        var id := FirstToken(text, addSpecial);
        var n := |pieces[id]|;
        assert text == pieces[id] + text[n..];
        InitialText(text[n..], addSpecial);
        PieceOf(id);
        PiecesConcat([id], Initial(text[n..], addSpecial));
      }
    }

    /** The token that a scan standing at `rest` takes: with special tokens, the first one the text starts with;
        otherwise, and elsewhere, the regular token of the next byte. */
    ghost predicate TakenAt(rest: Text, addSpecial: bool, id: nat) {
      && rest != []
      && (if addSpecial && exists k :: bosId <= k < |pieces| && pieces[k] <= rest
          then bosId <= id < |pieces| && pieces[id] <= rest && forall k | bosId <= k < id :: !(pieces[k] <= rest)
          else id < bosId && id < |pieces| && pieces[id] == [rest[0]])
    }

    lemma FirstTaken(text: Text, addSpecial: bool)
      requires Valid() && text != [] && NoNul(text)
      ensures TakenAt(text, addSpecial, FirstToken(text, addSpecial))
    {
      assert find([text[0]]).Some?;
    }

    /** Every token before merging is the one taken where the tokens before it end. */
    lemma {:induction false} InitialAt(text: Text, addSpecial: bool, k: nat)
      requires Valid() && NoNul(text) && k < |Initial(text, addSpecial)|
      ensures var ts := Initial(text, addSpecial);
              && Pieces(pieces, ts[..k]) <= text
              && TakenAt(text[|Pieces(pieces, ts[..k])|..], addSpecial, ts[k])
      decreases |text|
    {
      hide Pieces, FirstToken, TakenAt, Valid;
      var ts, id := Initial(text, addSpecial), FirstToken(text, addSpecial);
      if k == 0 {
        NoPieces();
        FirstTaken(text, addSpecial);
        assert text[0..] == text;
      } else {
        var n := |pieces[id]|;
        InitialAt(text[n..], addSpecial, k - 1);
        var rest := Initial(text[n..], addSpecial);
        PieceOf(id);
        PiecesConcat([id], rest[..k - 1]);
        assert ts[..k] == [id] + rest[..k - 1];
        assert text == pieces[id] + text[n..];
        assert text[n..][|Pieces(pieces, rest[..k - 1])|..] == text[n + |Pieces(pieces, rest[..k - 1])|..];
      }
    }

    lemma NoPieces()
      ensures Pieces(pieces, []) == []
    {
    }

    function Start(text: Text, addBos: bool, addSpecial: bool): seq<nat>
      requires Valid() && NoNul(text)
    {
      (if addBos then [bosId] else []) + Initial(text, addSpecial)
    }

    /** All tokens of an encoding. */
    function Encoding(text: Text, addBos: bool, addSpecial: bool): (ts: seq<nat>)
      requires Valid() && NoNul(text)
    {
      MergeAll(Start(text, addBos, addSpecial))
    }

    /** Encoding preserves the text, needs at most a token a byte, and leaves no pair that could still be
        merged. */
    lemma EncodingText(text: Text, addBos: bool, addSpecial: bool)
      requires Valid() && NoNul(text)
      ensures Ids(Encoding(text, addBos, addSpecial))
      ensures Pieces(pieces, Encoding(text, addBos, addSpecial)) == (if addBos then pieces[bosId] else []) + text
      ensures |Encoding(text, addBos, addSpecial)| <= |text| + (if addBos then 1 else 0)
      ensures forall i: nat :: PairAt(Encoding(text, addBos, addSpecial), i) == None
    {
      hide Pieces, Initial, PairAt, MergeAll;
      InitialText(text, addSpecial);
      PieceOf(bosId);
      NoPieces();
      PiecesConcat(if addBos then [bosId] else [], Initial(text, addSpecial));
      MergedText(Start(text, addBos, addSpecial));
    }

    /** The pair at `i` spells regular token `id`, which scores more than -1e10. */
    ghost predicate Mergeable(ts: seq<nat>, i: nat, id: nat) {
      && i + 1 < |ts| && ts[i] < |pieces| && ts[i + 1] < |pieces| && id < |scores|
      && find(pieces[ts[i]] + pieces[ts[i + 1]]) == Some(id) && scores[id] > -10000000000.0
    }

    /** Of all pairs the one at `at` has the highest score, the leftmost of equals. */
    ghost predicate BestAt(ts: seq<nat>, at: nat, id: nat) {
      && Mergeable(ts, at, id)
      && forall i: nat, other: nat | Mergeable(ts, i, other) ::
           scores[other] <= scores[id] && (i < at ==> scores[other] < scores[id])
    }

    ghost predicate Merges(ts: seq<nat>, ts': seq<nat>, at: nat, id: nat) {
      BestAt(ts, at, id) && ts' == ts[..at] + [id] + ts[at + 2..]
    }

    ghost predicate OneMerge(ts: seq<nat>, ts': seq<nat>) {
      exists at: nat, id: nat :: Merges(ts, ts', at, id)
    }

    ghost predicate NoMerge(ts: seq<nat>) {
      forall i: nat, id: nat :: !Mergeable(ts, i, id)
    }

    lemma MergeableIs(ts: seq<nat>, i: nat, id: nat)
      requires Valid()
      ensures Mergeable(ts, i, id) <==> PairAt(ts, i) == Some(id)
      ensures Mergeable(ts, i, id) ==> i < |ts| && ScoreAt(ts, i) == scores[id]
    {
    }

    lemma BestMerges(ts: seq<nat>)
      requires Valid()
      ensures Best(ts, |ts|) == None ==> NoMerge(ts)
      ensures Best(ts, |ts|).Some? ==> OneMerge(ts, Merge(ts, Best(ts, |ts|).value))
    {
      hide PairAt, Mergeable, Best, ScoreAt, Valid;
      BestIsBest(ts, |ts|);
      if Best(ts, |ts|).None? {
        forall i: nat, id: nat
          ensures !Mergeable(ts, i, id)
        {
          MergeableIs(ts, i, id);
        }
      } else {
        var at := Best(ts, |ts|).value;
        var id := PairAt(ts, at).value;
        MergeableIs(ts, at, id);
        forall i: nat, other: nat | Mergeable(ts, i, other)
          ensures other < |scores| && scores[other] <= scores[id] && (i < at ==> scores[other] < scores[id])
        {
          MergeableIs(ts, i, other);
        }
        assert Merges(ts, Merge(ts, at), at, id);
      }
    }

    /** From the scanned tokens, best merge after best merge, until no pair merges. */
    ghost predicate MergeRun(trace: seq<seq<nat>>) {
      && trace != [] && NoMerge(trace[|trace| - 1])
      && forall k {:trigger trace[k]} | 0 <= k < |trace| - 1 :: OneMerge(trace[k], trace[k + 1])
    }

    lemma {:induction false} MergeAllRun(ts: seq<nat>) returns (trace: seq<seq<nat>>)
      requires Valid()
      ensures MergeRun(trace) && trace[0] == ts && trace[|trace| - 1] == MergeAll(ts)
      decreases |ts|
    {
      BestMerges(ts);
      hide PairAt, NoMerge, OneMerge, Best, Merge, Valid;
      if Best(ts, |ts|).None? {
        trace := [ts];
      } else {
        var rest := MergeAllRun(Merge(ts, Best(ts, |ts|).value));
        trace := [ts] + rest;
      }
    }

    /** What an encoding is: BOS if asked, the scanned tokens, and the merges from there. */
    lemma EncodingRun(text: Text, addBos: bool, addSpecial: bool) returns (trace: seq<seq<nat>>)
      requires Valid() && NoNul(text)
      ensures MergeRun(trace) && trace[|trace| - 1] == Encoding(text, addBos, addSpecial)
      ensures trace[0] == (if addBos then [bosId] else []) + Initial(text, addSpecial)
    {
      hide MergeRun, MergeAll, Initial, Valid;
      trace := MergeAllRun(Start(text, addBos, addSpecial));
    }

    /** Decoding what was encoded gives back text made of whole characters. */
    lemma RoundTrip(text: Text)
      requires Valid() && WellFormed(text) && NoNul(text)
      ensures Regular(Encoding(text, false, false))
      ensures Decode(Pieces(pieces, Encoding(text, false, false)), 0) == Decoded(text, [])
    {
      hide Pieces, Initial, PairAt, MergeAll, Decode, WellFormed;
      EncodingText(text, false, false);
      InitialText(text, false);
      assert Start(text, false, false) == Initial(text, false);
      MergedRegular(Initial(text, false));
      assert [] + text == text;
      ValidUnchanged(text);
    }
  }

  /** There are such vocabularies: one regular token for each byte, and any special tokens. */
  lemma SomeVocab(specials: seq<Text>)
    requires specials != [] && forall s <- specials :: s != []
    ensures Vocab(Bytes() + specials, seq(255 + |specials|, _ => 0.0), 255,
                  (s: Text) => if |s| == 1 && s[0] > 0 then Some(s[0] - 1) else None).Valid()
  {
    var v := Vocab(Bytes() + specials, seq(255 + |specials|, _ => 0.0), 255,
                   (s: Text) => if |s| == 1 && s[0] > 0 then Some(s[0] - 1) else None);
    forall i | 0 <= i < |v.pieces|
      ensures v.pieces[i] != []
    {
      if i >= 255 {
        assert v.pieces[i] == specials[i - 255] && specials[i - 255] in specials;
      }
    }
  }

  function Bytes(): (bs: seq<Text>)
    ensures |bs| == 255 && forall i | 0 <= i < 255 :: bs[i] == [i + 1]
  {
    seq(255, i requires 0 <= i < 255 => [(i + 1) as Byte])
  }

  method FindSpecialTokenStartWith(v: Vocab, text: Text) returns (id: Option<nat>)
    requires v.Valid()
    ensures id == None <==> forall k | v.bosId <= k < |v.pieces| :: !(v.pieces[k] <= text)
    ensures id.Some? ==>
              && v.bosId <= id.value < |v.pieces| && v.pieces[id.value] <= text
              && forall k | v.bosId <= k < id.value :: !(v.pieces[k] <= text)
  {
    var i := v.bosId;
    while i < |v.pieces|
      invariant i <= |v.pieces| && forall k | v.bosId <= k < i :: !(v.pieces[k] <= text)
    {
      if v.pieces[i] <= text {
        return Some(i);
      }
      i := i + 1;
    }
    return None;
  }

  /** encode: one token a byte or special token, then merging in place. */
  method Encode(v: Vocab, text: Text, tokens: array<nat>, addBos: bool, addSpecial: bool) returns (nTokens: nat)
    requires v.Valid() && Vocab.NoNul(text) && tokens.Length > |text|
    modifies tokens
    ensures nTokens <= tokens.Length && tokens[..nTokens] == v.Encoding(text, addBos, addSpecial)
  {
    hide Pieces, Vocab.MergeAll, Vocab.Best, Vocab.PairAt, Vocab.Start;
    nTokens := Tokens(v, text, tokens, addBos, addSpecial);
    StartIds(v, text, addBos, addSpecial);
    while true
      invariant nTokens <= tokens.Length && v.Ids(tokens[..nTokens])
      invariant v.MergeAll(tokens[..nTokens]) == v.Encoding(text, addBos, addSpecial)
      decreases nTokens
    {
      var best := BestPair(v, tokens, nTokens);
      MergeStep(v, tokens[..nTokens]);
      if best.None? {
        break;
      }
      var at := best.value.0;
      ghost var ts := tokens[..nTokens];
      ReplacePair(tokens, nTokens, at, best.value.1);
      nTokens := nTokens - 1;
      assert tokens[..nTokens] == v.Merge(ts, at);
      v.MergeKeepsText(ts, at);
    }
  }

  /** The pair at `at` becomes one token; the rest moves down. */
  method ReplacePair(tokens: array<nat>, nTokens: nat, at: nat, id: nat)
    requires at + 1 < nTokens <= tokens.Length
    modifies tokens
    ensures tokens[..nTokens - 1] == old(tokens[..at]) + [id] + old(tokens[at + 2..nTokens])
  {
    tokens[at] := id;
    for i := at + 1 to nTokens - 1
      invariant forall k | 0 <= k < nTokens && k != at && (k < at || k >= i) :: tokens[k] == old(tokens[k])
      invariant forall k | at < k < i :: tokens[k] == old(tokens[k + 1])
      invariant tokens[at] == id
    {
      tokens[i] := tokens[i + 1];
    }
  }

  lemma StartIds(v: Vocab, text: Text, addBos: bool, addSpecial: bool)
    requires v.Valid() && Vocab.NoNul(text)
    ensures v.Ids(v.Start(text, addBos, addSpecial))
  {
    v.InitialText(text, addSpecial);
  }

  lemma MergeStep(v: Vocab, ts: seq<nat>)
    ensures v.MergeAll(ts) == if v.Best(ts, |ts|).None? then ts else v.MergeAll(v.Merge(ts, v.Best(ts, |ts|).value))
  {
  }

  /** The scan of the text. */
  method Tokens(v: Vocab, text: Text, tokens: array<nat>, addBos: bool, addSpecial: bool) returns (nTokens: nat)
    requires v.Valid() && Vocab.NoNul(text) && tokens.Length > |text|
    modifies tokens
    ensures nTokens <= tokens.Length && tokens[..nTokens] == v.Start(text, addBos, addSpecial)
  {
    hide Vocab.FindSpecial, Vocab.Valid, Vocab.Initial, Vocab.FirstToken;
    nTokens := 0;
    if addBos {
      tokens[0] := v.bosId;
      nTokens := 1;
    }
    ghost var bos := nTokens;
    assert text[0..] == text;
    var strBuffer: Text := [];
    var c := 0;
    while c < |text|
      invariant c <= |text| && bos <= 1 && nTokens <= c + bos && strBuffer == []
      invariant tokens[..nTokens] + v.Initial(text[c..], addSpecial) == v.Start(text, addBos, addSpecial)
    {
      ghost var before := tokens[..nTokens];
      InitialStep(v, text, c, addSpecial);
      var special := None;
      if addSpecial {
        special := FindSpecialTokenStartWith(v, text[c..]);
      }
      if special.Some? {
        tokens[nTokens] := special.value;
        nTokens := nTokens + 1;
        c := c + |v.pieces[special.value]|;
      } else {
        strBuffer := strBuffer + [text[c]];
        assert strBuffer == [text[c]];
        var id := v.find(strBuffer);
        if id.Some? {
          tokens[nTokens] := id.value;
          nTokens := nTokens + 1;
          strBuffer := [];
        }
        c := c + 1;
      }
      assert tokens[..nTokens] == before + [tokens[nTokens - 1]];
    }
    InitialEnd(v, addSpecial);
    assert tokens[..nTokens] + [] == tokens[..nTokens];
  }

  lemma InitialEnd(v: Vocab, addSpecial: bool)
    requires v.Valid()
    ensures v.Initial([], addSpecial) == []
  {
  }

  lemma InitialStep(v: Vocab, text: Text, c: nat, addSpecial: bool)
    requires v.Valid() && c < |text| && Vocab.NoNul(text)
    ensures var special := v.FindSpecial(text[c..], v.bosId);
            && v.find([text[c]]).Some?
            && var id := if addSpecial && special.Some? then special.value else v.find([text[c]]).value;
            && id < |v.pieces| && 0 < |v.pieces[id]| <= |text| - c
            && (!addSpecial || special.None? ==> |v.pieces[id]| == 1)
            && v.Initial(text[c..], addSpecial) == [id] + v.Initial(text[c + |v.pieces[id]|..], addSpecial)
  {
    var rest := text[c..];
    assert v.find([rest[0]]).Some?;
    var id := v.FirstToken(rest, addSpecial);
    assert rest[|v.pieces[id]|..] == text[c + |v.pieces[id]|..];
  }

  /** The search for the best pair: its position and the token it becomes. */
  method BestPair(v: Vocab, tokens: array<nat>, nTokens: nat) returns (best: Option<(nat, nat)>)
    requires v.Valid() && nTokens <= tokens.Length && v.Ids(tokens[..nTokens])
    ensures var ts := tokens[..nTokens];
            && (best.None? <==> v.Best(ts, |ts|).None?)
            && (best.Some? ==> best.value.0 == v.Best(ts, |ts|).value && Some(best.value.1) == v.PairAt(ts, best.value.0))
  {
    hide Vocab.PairAt;
    ghost var ts := tokens[..nTokens];
    best := None;
    var bestScore := NO_SCORE;
    var i := 0;
    while i + 1 < nTokens
      invariant i <= nTokens && (i == nTokens ==> nTokens == 0)
      invariant best.None? <==> v.Best(ts, i).None?
      invariant best.Some? ==> best.value.0 == v.Best(ts, i).value && Some(best.value.1) == v.PairAt(ts, best.value.0)
      invariant bestScore == (if best.Some? then v.ScoreAt(ts, best.value.0) else NO_SCORE) && bestScore >= NO_SCORE
    {
      var strBuffer := v.pieces[tokens[i]] + v.pieces[tokens[i + 1]];
      var id := v.find(strBuffer);
      PairFound(v, ts, i);
      if id.Some? && v.scores[id.value] > bestScore {
        bestScore := v.scores[id.value];
        best := Some((i, id.value));
      }
      i := i + 1;
    }
    if nTokens > 0 {
      LastHasNone(v, ts);
    }
  }

  lemma PairFound(v: Vocab, ts: seq<nat>, i: nat)
    requires v.Valid() && v.Ids(ts) && i + 1 < |ts|
    ensures var id := v.find(v.pieces[ts[i]] + v.pieces[ts[i + 1]]);
            && (id.Some? ==> id.value < |v.scores|)
            && v.PairAt(ts, i) == if id.Some? && v.scores[id.value] > NO_SCORE then id else None
  {
  }

  lemma LastHasNone(v: Vocab, ts: seq<nat>)
    requires ts != []
    ensures v.Best(ts, |ts|) == v.Best(ts, |ts| - 1)
  {
  }
}
