/** The decoder half of Tokenizer (src/tokenizer.cpp): the loop over the held bytes with its
    checkpoints, and decode calls over a run of tokens. */
module StreamDecoder {
  import opened Wrappers
  import opened Utf8

  /** The bytes `s[..n]` are the start of a character that announces more. */
  ghost predicate InChar(s: Text, n: nat) {
    0 < n <= |s| && n < LeadLength(s[0]) && forall i | 1 <= i < n :: Continuation(s[i])
  }

  lemma CharContinues(s: Text, n: nat)
    requires InChar(s, n)
    ensures n == |s| ==> HeadOf(s) == Partial
    ensures n < |s| && !Continuation(s[n]) ==> HeadOf(s) == Bad(n)
    ensures n < |s| && Continuation(s[n]) && n + 1 == LeadLength(s[0]) ==> HeadOf(s) == Char(n + 1)
  {
    if n == |s| || !Continuation(s[n]) {
      ContinuationsAre(s[1..], n - 1, LeadLength(s[0]) - 1);
    }
    if n < |s| && Continuation(s[n]) && n + 1 == LeadLength(s[0]) {
      ContinuationsAre(s[1..], n, n);
    }
  }

  lemma {:induction false} ContinuationsAre(s: Text, n: nat, max: nat)
    requires n <= max && n <= |s| && forall i | 0 <= i < n :: Continuation(s[i])
    requires n == |s| || n == max || !Continuation(s[n])
    ensures Continuations(s, max) == n
  {
    if n > 0 {
      ContinuationsAre(s[1..], n - 1, max - 1);
    }
  }

  class Decoder {
    const vocab: seq<Text>
    const bosId: nat
    const eosTokenIds: seq<nat>
    const maxTokenLength: nat
    var strBuffer: Text

    constructor (vocab: seq<Text>, bosId: nat, eosTokenIds: seq<nat>, maxTokenLength: nat)
      ensures this.vocab == vocab && this.bosId == bosId && this.eosTokenIds == eosTokenIds
      ensures this.maxTokenLength == maxTokenLength && strBuffer == []
    {
      this.vocab, this.bosId, this.eosTokenIds, this.maxTokenLength := vocab, bosId, eosTokenIds, maxTokenLength;
      strBuffer := [];
    }

    function StrBufferSize(): nat {
      (if maxTokenLength * 2 < 8 then 8 else maxTokenLength * 2) + 1 + 2
    }

    method ResetDecoder()
      modifies this
      ensures strBuffer == []
    {
      strBuffer := [];
    }

    /** Where the loop stands: everything before `checkpointSrc` is released, then come invalid bytes up
        to `unit`, then the start of a character. */
    ghost predicate Scanning(utf8: Text, checkpoint: nat, checkpointSrc: nat, unit: nat, src: nat, missing: nat)
      reads this
    {
      && checkpoint <= |utf8| && checkpointSrc <= unit <= src <= |strBuffer|
      && Decode(strBuffer, 0) == Decoded(utf8[..checkpoint] + Decode(strBuffer[checkpointSrc..], 0).out,
                                         Decode(strBuffer[checkpointSrc..], 0).pending)
      && Skips(strBuffer[checkpointSrc..], 0, unit - checkpointSrc)
      && utf8[checkpoint..] == (if unit > checkpointSrc then REPLACEMENT else []) + strBuffer[unit..src]
      && (if src == unit then missing == 0
          else InChar(strBuffer[unit..], src - unit) && missing == LeadLength(strBuffer[unit]) - (src - unit))
    }

    /** A character is complete: it and what stands before it are released. */
    lemma Release(utf8: Text, checkpoint: nat, checkpointSrc: nat, unit: nat, src: nat)
      requires checkpoint <= |utf8| && checkpointSrc <= unit < src <= |strBuffer|
      requires Decode(strBuffer, 0) == Decoded(utf8[..checkpoint] + Decode(strBuffer[checkpointSrc..], 0).out,
                                               Decode(strBuffer[checkpointSrc..], 0).pending)
      requires Skips(strBuffer[checkpointSrc..], 0, unit - checkpointSrc)
      requires utf8[checkpoint..] == (if unit > checkpointSrc then REPLACEMENT else []) + strBuffer[unit..src]
      requires HeadOf(strBuffer[unit..]) == Char(src - unit)
      ensures Scanning(utf8, |utf8|, src, src, src, 0)
    {
      hide Decode, HeadOf;
      var t, k, n := strBuffer[checkpointSrc..], unit - checkpointSrc, src - unit;
      SkipsSame(t, 0, k);
      assert t[k..] == strBuffer[unit..];
      DecodeChar(t, k);
      assert t[k + n..] == strBuffer[src..] && t[k..k + n] == strBuffer[unit..src];
      assert utf8 == utf8[..checkpoint] + utf8[checkpoint..];
    }

    /** One more byte of a character: either it is complete now, or `left` bytes are still missing. */
    lemma Take(utf8: Text, checkpoint: nat, checkpointSrc: nat, unit: nat, src: nat, missing: nat, left: nat)
      requires Scanning(utf8, checkpoint, checkpointSrc, unit, src, missing) && src < |strBuffer|
      requires if missing == 0 then LeadLength(strBuffer[src]) == left + 1 else Continuation(strBuffer[src]) && left == missing - 1
      ensures left > 0 ==> Scanning(utf8 + [strBuffer[src]], checkpoint, checkpointSrc, unit, src + 1, left)
      ensures left == 0 ==> Scanning(utf8 + [strBuffer[src]], |utf8| + 1, src + 1, src + 1, src + 1, 0)
    {
      hide Decode, HeadOf, Skips;
      var utf8' := utf8 + [strBuffer[src]];
      assert utf8'[..checkpoint] == utf8[..checkpoint] && utf8'[checkpoint..] == utf8[checkpoint..] + [strBuffer[src]];
      assert strBuffer[unit..src + 1] == strBuffer[unit..src] + [strBuffer[src]];
      if left == 0 {
        if missing == 0 {
          SingleByte(strBuffer[unit..]);
        } else {
          CharContinues(strBuffer[unit..], src - unit);
        }
        Release(utf8', checkpoint, checkpointSrc, unit, src + 1);
      }
    }

    /** The stretch from `unit` to `next` is invalid. */
    lemma Skip(utf8: Text, checkpoint: nat, checkpointSrc: nat, unit: nat, next: nat)
      requires checkpoint <= |utf8| && checkpointSrc <= unit < next <= |strBuffer|
      requires Decode(strBuffer, 0) == Decoded(utf8[..checkpoint] + Decode(strBuffer[checkpointSrc..], 0).out,
                                               Decode(strBuffer[checkpointSrc..], 0).pending)
      requires Skips(strBuffer[checkpointSrc..], 0, unit - checkpointSrc)
      requires HeadOf(strBuffer[unit..]) == Bad(next - unit)
      ensures Scanning(utf8[..checkpoint] + REPLACEMENT, checkpoint, checkpointSrc, next, next, 0)
    {
      hide Decode, HeadOf;
      var t, k := strBuffer[checkpointSrc..], unit - checkpointSrc;
      assert t[k..] == strBuffer[unit..];
      SkipsOn(t, 0, k);
    }

    /** detokUtf8: release what can be released, keep the rest. */
    method DetokUtf8() returns (out: Option<Text>)
      modifies this
      ensures out != Some([])
      ensures Decode(old(strBuffer), 0) == Decoded(if out.Some? then out.value else [], strBuffer)
    {
      hide Decode, HeadOf, Skips;
      var utf8: Text := [];
      var checkpoint: nat, checkpointSrc: nat, src: nat, missing: nat := 0, 0, 0, 0;
      ghost var unit: nat := 0;
      Start();
      while src < |strBuffer|
        invariant strBuffer == old(strBuffer)
        invariant Scanning(utf8, checkpoint, checkpointSrc, unit, src, missing)
        decreases |strBuffer| - src, missing
      {
        var c := strBuffer[src];
        var needRecovery := false;
        ghost var before, from, was := utf8, src, missing;
        if missing > 0 {
          if 0x80 <= c <= 0xbf {
            utf8, src, missing := utf8 + [c], src + 1, missing - 1;
          } else {
            needRecovery := true;
          }
        } else if c <= 0x7f {
          utf8, src := utf8 + [c], src + 1;
        } else if 0xc0 <= c <= 0xdf {
          utf8, src, missing := utf8 + [c], src + 1, 1;
        } else if 0xe0 <= c <= 0xef {
          utf8, src, missing := utf8 + [c], src + 1, 2;
        } else if 0xf0 <= c <= 0xf7 {
          utf8, src, missing := utf8 + [c], src + 1, 3;
        } else {
          needRecovery := true;
        }
        if !needRecovery {
          Take(before, checkpoint, checkpointSrc, unit, from, was, missing);
          if missing == 0 {
            checkpoint := |utf8|;
            checkpointSrc := src;
            unit := src;
          }
        } else {
          if missing > 0 {
            CharContinues(strBuffer[unit..], src - unit);
            missing := 0;
          } else {
            SingleByte(strBuffer[unit..]);
            src := src + 1;
          }
          Skip(utf8, checkpoint, checkpointSrc, unit, src);
          utf8 := utf8[..checkpoint] + REPLACEMENT;
          unit := src;
        }
      }
      Finish(utf8, checkpoint, checkpointSrc, unit, missing);
      strBuffer := strBuffer[checkpointSrc..];
      if checkpoint > 0 {
        return Some(utf8[..checkpoint]);
      } else {
        return None;
      }
    }

    lemma Start()
      ensures Scanning([], 0, 0, 0, 0, 0)
    {
      assert strBuffer[0..] == strBuffer;
    }

    lemma SingleByte(s: Text)
      requires s != []
      ensures LeadLength(s[0]) == 1 ==> HeadOf(s) == Char(1)
      ensures LeadLength(s[0]) == 0 ==> HeadOf(s) == Bad(1)
    {
    }

    lemma Finish(utf8: Text, checkpoint: nat, checkpointSrc: nat, unit: nat, missing: nat)
      requires Scanning(utf8, checkpoint, checkpointSrc, unit, |strBuffer|, missing)
      ensures Decode(strBuffer, 0) == Decoded(utf8[..checkpoint], strBuffer[checkpointSrc..])
    {
      hide Decode, HeadOf;
      var t, k := strBuffer[checkpointSrc..], unit - checkpointSrc;
      SkipsSame(t, 0, k);
      assert t[k..] == strBuffer[unit..];
      if unit < |strBuffer| {
        CharContinues(t[k..], |t| - k);
      }
      DecodeEnd(t, k);
    }

    /** Between calls nothing of the held bytes could be released. */
    ghost predicate Settled()
      reads this
    {
      Decode(strBuffer, 0) == Decoded([], strBuffer)
    }

    /** The capacity assertion of decode. */
    predicate Fits(held: Text, token: nat)
      requires token < |vocab|
    {
      |held| + |vocab[token]| + 1 < StrBufferSize()
    }

    /** decode: special tokens release nothing new when `nullSpecial` is set. It fails on a piece that
        does not fit behind what is held. */
    method DecodeToken(token: nat, nullSpecial: bool) returns (fits: bool, out: Option<Text>)
      requires Settled() && token < |vocab|
      modifies this
      ensures Settled()
      ensures nullSpecial && token == bosId ==> fits && out == None && strBuffer == old(strBuffer)
      ensures nullSpecial && token != bosId && token in eosTokenIds ==>
                fits && strBuffer == old(strBuffer) && out == if strBuffer == [] then None else Some(strBuffer)
      ensures !nullSpecial || (token != bosId && token !in eosTokenIds) ==> (fits <==> Fits(old(strBuffer), token))
      ensures !fits ==> out == None && strBuffer == old(strBuffer)
      ensures fits && (!nullSpecial || (token != bosId && token !in eosTokenIds)) ==>
                Decode(old(strBuffer) + vocab[token], 0) == Decoded(if out.Some? then out.value else [], strBuffer)
    {
      hide Decode;
      if token == bosId && nullSpecial {
        return true, None;
      }
      if token in eosTokenIds && nullSpecial {
        return true, if |strBuffer| > 0 then Some(strBuffer) else None;
      }
      if |strBuffer| + |vocab[token]| + 1 >= StrBufferSize() {
        return false, None;
      }
      strBuffer := strBuffer + vocab[token];
      PendingSettled(strBuffer);
      fits := true;
      out := DetokUtf8();
    }

    /** Piece `i` of a run fits behind what the text before it leaves held. */
    predicate FitsAt(held: Text, tokens: seq<nat>, i: nat)
      requires i < |tokens|
    {
      tokens[i] < |vocab| && Fits(Decode(held + Pieces(vocab, tokens[..i]), 0).pending, tokens[i])
    }

    ghost predicate RunFits(held: Text, tokens: seq<nat>) {
      forall i: nat | i < |tokens| :: FitsAt(held, tokens, i)
    }

    /** A run of ordinary tokens, decoded one by one: it fails only if a piece does not fit; otherwise
        the outputs together, and the bytes held at the end, are those of the whole text in one call. */
    method DecodeRun(tokens: seq<nat>) returns (fits: bool, text: Text)
      requires Settled() && forall t <- tokens :: t < |vocab| && t != bosId && t !in eosTokenIds
      modifies this
      ensures Settled()
      ensures fits <==> RunFits(old(strBuffer), tokens)
      ensures fits ==> Decoded(text, strBuffer) == Decode(old(strBuffer) + Pieces(vocab, tokens), 0)
    {
      hide Decode, Pieces, Fits;
      fits, text := true, [];
      NoPiecesYet(vocab);
      assert old(strBuffer) + Pieces(vocab, []) == old(strBuffer);
      for i := 0 to |tokens|
        invariant Settled() && fits
        invariant Decoded(text, strBuffer) == Decode(old(strBuffer) + Pieces(vocab, tokens[..i]), 0)
        invariant forall k: nat | k < i :: FitsAt(old(strBuffer), tokens, k)
      {
        assert tokens[i] in tokens;
        assert FitsAt(old(strBuffer), tokens, i) <==> Fits(strBuffer, tokens[i]);
        var out;
        fits, out := DecodeToken(tokens[i], true);
        if !fits {
          return;
        }
        CutAnywhere(old(strBuffer) + Pieces(vocab, tokens[..i]), vocab[tokens[i]], 0);
        PiecesNext(vocab, tokens, i);
        assert old(strBuffer) + Pieces(vocab, tokens[..i + 1]) == old(strBuffer) + Pieces(vocab, tokens[..i]) + vocab[tokens[i]];
        text := text + if out.Some? then out.value else [];
      }
      assert tokens[..|tokens|] == tokens;
    }

    /** Text that is valid as far as it goes always fits: no more than three bytes are ever held. */
    lemma ValidRunFits(tokens: seq<nat>, more: Text)
      requires maxTokenLength >= 1 && forall t <- tokens :: t < |vocab| && |vocab[t]| <= maxTokenLength
      requires WellFormed(Pieces(vocab, tokens) + more)
      ensures RunFits([], tokens)
    {
      hide Decode, WellFormed, Pieces;
      forall i: nat | i < |tokens|
        ensures FitsAt([], tokens, i)
      {
        assert tokens[i] in tokens;
        HeldShort(vocab, tokens, more, i);
      }
    }

    /** Invalid bytes are held until the next valid one: a repeated one-byte token 0x80 fails as soon as
        the buffer is full, whatever its size. */
    lemma InvalidRunFits(token: nat, n: nat)
      requires token < |vocab| && vocab[token] == [0x80]
      ensures RunFits([], seq(n, _ => token)) <==> n < 2 + if maxTokenLength < 4 then 8 else 2 * maxTokenLength
    {
      var tokens := seq(n, _ => token);
      forall i: nat | i < n
        ensures FitsAt([], tokens, i) <==> i + 2 < StrBufferSize()
      {
        hide Decode, Pieces;
        InvalidHeld(vocab, token, tokens[..i]);
        assert [] + Pieces(vocab, tokens[..i]) == Pieces(vocab, tokens[..i]);
      }
      if n > 0 {
        assert FitsAt([], tokens, n - 1) <==> n - 1 + 2 < StrBufferSize();
      }
    }
  }

  lemma {:induction false} PiecesFront(vocab: seq<Text>, tokens: seq<nat>, i: nat) returns (rest: Text)
    requires i <= |tokens|
    ensures Pieces(vocab, tokens) == Pieces(vocab, tokens[..i]) + rest
  {
    if i == |tokens| {
      assert tokens[..i] == tokens;
      rest := [];
    } else {
      rest := PiecesFront(vocab, tokens[..|tokens| - 1], i);
      assert tokens[..|tokens| - 1][..i] == tokens[..i];
      var t := tokens[|tokens| - 1];
      rest := rest + if t < |vocab| then vocab[t] else [];
    }
  }

  lemma HeldShort(vocab: seq<Text>, tokens: seq<nat>, more: Text, i: nat)
    requires i <= |tokens| && WellFormed(Pieces(vocab, tokens) + more)
    ensures |Decode([] + Pieces(vocab, tokens[..i]), 0).pending| <= 3
  {
    hide *;
    var rest := PiecesFront(vocab, tokens, i);
    var before := Pieces(vocab, tokens[..i]);
    assert [] + before == before && (before + rest) + more == before + (rest + more);
    PendingShort(before, rest + more);
  }

  lemma {:induction false} InvalidHeld(vocab: seq<Text>, token: nat, tokens: seq<nat>)
    requires token < |vocab| && vocab[token] == [0x80] && forall i | 0 <= i < |tokens| :: tokens[i] == token
    ensures var s := Pieces(vocab, tokens);
            |s| == |tokens| && (forall i | 0 <= i < |s| :: s[i] == 0x80) && Decode(s, 0) == Decoded([], s)
  {
    hide Decode;
    if tokens != [] {
      InvalidHeld(vocab, token, tokens[..|tokens| - 1]);
    }
    InvalidPending(Pieces(vocab, tokens), 0);
  }

  lemma NoPiecesYet(vocab: seq<Text>)
    ensures Pieces(vocab, []) == []
  {
  }

  lemma PiecesNext(vocab: seq<Text>, tokens: seq<nat>, i: nat)
    requires i < |tokens| && tokens[i] < |vocab|
    ensures Pieces(vocab, tokens[..i + 1]) == Pieces(vocab, tokens[..i]) + vocab[tokens[i]]
  {
    assert tokens[..i + 1][..i] == tokens[..i];
  }

  /** The strings of a token list, one after the other. */
  function Pieces(vocab: seq<Text>, tokens: seq<nat>): Text {
    if tokens == [] then []
    else Pieces(vocab, tokens[..|tokens| - 1]) + var t := tokens[|tokens| - 1]; if t < |vocab| then vocab[t] else []
  }
}
