/** EosDetector of src/tokenizer.cpp and the way the server drives it (src/dllama-api.cpp): text that may
    be the start of a stop string is held back until that is decided. */
module EosDetection {
  import opened Wrappers
  import opened Utf8

  datatype EosType = MaybeEos | Eos | NotEos

  /** What a comparison finds: nothing, the start of a stop string up to the end of the buffer, or a
      whole stop string at `lo`. */
  datatype Match = NoMatch | Started(stop: nat, lo: nat) | Found(stop: nat, lo: nat)

  datatype Stops = Stops(tokens: seq<nat>, pieces: seq<Text>, paddingLeft: nat, paddingRight: nat) {
    /** The comparison of stop string `s` at offset `lo`. */
    function At(buffer: Text, s: nat, lo: nat): (m: Match)
      requires s < |pieces|
      ensures m.Found? ==> m == Found(s, lo) && lo + |pieces[s]| <= |buffer| && buffer[lo..lo + |pieces[s]|] == pieces[s]
      ensures m.Started? ==> m == Started(s, lo) && lo < |buffer| && |buffer| - lo < |pieces[s]| && buffer[lo..] <= pieces[s]
    {
      if |buffer| > |pieces[s]| + paddingLeft + paddingRight || lo >= |buffer| || |buffer| - lo > |pieces[s]| + paddingRight then NoMatch
      else
        var n := if |buffer| - lo > |pieces[s]| then |pieces[s]| else |buffer| - lo;
        if buffer[lo..lo + n] != pieces[s][..n] then NoMatch
        else if n == |pieces[s]| then Found(s, lo) else Started(s, lo)
    }

    /** The first match, stop string by stop string and offset by offset, from `(s, lo)` on. */
    function First(buffer: Text, s: nat, lo: nat): (m: Match)
      requires s <= |pieces| && lo <= paddingLeft + 1
      ensures m.Found? ==> m.lo <= |buffer| && m.stop < |pieces|
      decreases |pieces| - s, paddingLeft + 1 - lo
    {
      if s == |pieces| then NoMatch
      else if lo > paddingLeft then First(buffer, s + 1, 0)
      else if At(buffer, s, lo) != NoMatch then At(buffer, s, lo)
      else First(buffer, s, lo + 1)
    }

    function LongestStop(n: nat): (r: nat)
      requires n <= |pieces|
      ensures forall s | 0 <= s < n :: |pieces[s]| <= r
    {
      if n == 0 then 0 else
        var r := LongestStop(n - 1);
        if |pieces[n - 1]| > r then |pieces[n - 1]| else r
    }

    lemma FirstStep(buffer: Text, s: nat, lo: nat)
      requires s < |pieces| && lo <= paddingLeft + 1
      ensures lo <= paddingLeft ==>
                First(buffer, s, lo) == if At(buffer, s, lo) != NoMatch then At(buffer, s, lo) else First(buffer, s, lo + 1)
      ensures lo > paddingLeft ==> First(buffer, s, lo) == First(buffer, s + 1, 0)
    {
      hide At;
    }

    /** The first match is a match, none is found only if there is none, and none comes earlier. */
    lemma {:induction false} FirstIsFirst(buffer: Text, s: nat, lo: nat)
      requires s <= |pieces| && lo <= paddingLeft + 1
      ensures var m := First(buffer, s, lo);
              && (m.NoMatch? ==>
                  forall t, k {:trigger At(buffer, t, k)} | s <= t < |pieces| && 0 <= k <= paddingLeft && (t > s || k >= lo) ::
                    At(buffer, t, k) == NoMatch)
              && (!m.NoMatch? ==> s <= m.stop < |pieces| && m.lo <= paddingLeft && m == At(buffer, m.stop, m.lo))
              && (!m.NoMatch? ==>
                  forall t, k {:trigger At(buffer, t, k)} |
                    && s <= t <= m.stop && 0 <= k <= paddingLeft
                    && (t > s || k >= lo) && (t < m.stop || k < m.lo) ::
                    At(buffer, t, k) == NoMatch)
      decreases |pieces| - s, paddingLeft + 1 - lo
    {
      hide At;
      if s < |pieces| {
        if lo > paddingLeft {
          FirstIsFirst(buffer, s + 1, 0);
        } else if At(buffer, s, lo) == NoMatch {
          FirstIsFirst(buffer, s, lo + 1);
        }
      }
    }

    /** Text that is held back is short. */
    lemma HeldIsShort(buffer: Text)
      requires First(buffer, 0, 0).Started?
      ensures |buffer| < paddingLeft + LongestStop(|pieces|)
    {
      FirstIsFirst(buffer, 0, 0);
    }

    /** A stop string within the paddings is never ordinary text. */
    lemma StopNotReleased(buffer: Text, s: nat, lo: nat)
      requires s < |pieces| && pieces[s] != [] && lo <= paddingLeft && lo + |pieces[s]| <= |buffer|
      requires |buffer| - lo <= |pieces[s]| + paddingRight && buffer[lo..lo + |pieces[s]|] == pieces[s]
      ensures First(buffer, 0, 0) != NoMatch
    {
      FirstIsFirst(buffer, 0, 0);
      assert pieces[s][..|pieces[s]|] == pieces[s];
      assert At(buffer, s, lo) == Found(s, lo);
    }
  }

  class EosDetector {
    const stops: Stops
    var buffer: Text
    var eosPos: Option<nat>

    constructor (stops: Stops)
      ensures this.stops == stops && buffer == [] && eosPos == None
    {
      this.stops, buffer, eosPos := stops, [], None;
    }

    method IsEos(tokenId: nat) returns (r: bool)
      ensures r <==> tokenId in stops.tokens
    {
      for i := 0 to |stops.tokens|
        invariant tokenId !in stops.tokens[..i]
      {
        if stops.tokens[i] == tokenId {
          return true;
        }
      }
      assert stops.tokens[..|stops.tokens|] == stops.tokens;
      return false;
    }

    /** append: an end-of-sequence token, or the first stop string that the buffer matches. */
    method Append(tokenId: nat, piece: Option<Text>) returns (r: EosType)
      modifies this
      ensures buffer == old(buffer) + (if piece.Some? then piece.value else [])
      ensures tokenId in stops.tokens ==> r == Eos && eosPos == Some(|buffer|)
      ensures tokenId !in stops.tokens ==>
                match stops.First(buffer, 0, 0)
                case NoMatch => r == NotEos && eosPos == None
                case Started(_, _) => r == MaybeEos && eosPos == None
                case Found(_, lo) => r == Eos && eosPos == Some(lo)
    {
      if piece.Some? {
        buffer := buffer + piece.value;
      }
      var token := IsEos(tokenId);
      if token {
        eosPos := Some(|buffer|);
        return Eos;
      }
      r := Detect();
    }

    /** The comparison loops of append. */
    method Detect() returns (r: EosType)
      modifies this`eosPos
      ensures match stops.First(buffer, 0, 0)
              case NoMatch => r == NotEos && eosPos == None
              case Started(_, _) => r == MaybeEos && eosPos == None
              case Found(_, lo) => r == Eos && eosPos == Some(lo)
    {
      hide Stops.First;
      eosPos := None;
      for s := 0 to |stops.pieces|
        invariant eosPos == None && stops.First(buffer, 0, 0) == stops.First(buffer, s, 0)
      {
        var pieceSize := |stops.pieces[s]|;
        if |buffer| > pieceSize + stops.paddingLeft + stops.paddingRight {
          SkipStop(s, 0);
          continue;
        }
        for lo := 0 to stops.paddingLeft + 1
          invariant eosPos == None && stops.First(buffer, 0, 0) == stops.First(buffer, s, lo)
        {
          stops.FirstStep(buffer, s, lo);
          var n := |buffer| - lo;
          if n <= 0 || n > pieceSize + stops.paddingRight {
            continue;
          }
          if n > pieceSize {
            n := pieceSize;
          }
          if buffer[lo..lo + n] == stops.pieces[s][..n] {
            if n == pieceSize {
              eosPos := Some(lo);
              return Eos;
            }
            return MaybeEos;
          }
        }
        stops.FirstStep(buffer, s, stops.paddingLeft + 1);
      }
      NoMoreStops();
      return NotEos;
    }

    lemma NoMoreStops()
      ensures stops.First(buffer, |stops.pieces|, 0) == NoMatch
    {
    }

    lemma SkipStop(s: nat, lo: nat)
      requires s < |stops.pieces| && lo <= stops.paddingLeft + 1
      requires |buffer| > |stops.pieces[s]| + stops.paddingLeft + stops.paddingRight
      ensures stops.First(buffer, s, lo) == stops.First(buffer, s + 1, 0)
      decreases stops.paddingLeft + 1 - lo
    {
      if lo <= stops.paddingLeft {
        SkipStop(s, lo + 1);
      }
    }

    /** getDelta: the text that may be released, up to the stop. */
    method GetDelta() returns (delta: Option<Text>)
      requires eosPos.Some? ==> eosPos.value <= |buffer|
      ensures (if delta.Some? then delta.value else []) == if eosPos.Some? then buffer[..eosPos.value] else buffer
    {
      if |buffer| == 0 {
        return None;
      }
      if eosPos.None? {
        return Some(buffer);
      }
      if eosPos.value == 0 {
        return None;
      }
      return Some(buffer[..eosPos.value]);
    }

    method Reset()
      modifies this
      ensures buffer == [] && eosPos == old(eosPos)
    {
      buffer := [];
    }
  }

  /** One decoded token. */
  datatype Item = Item(token: nat, piece: Option<Text>)

  function Piece(item: Item): Text {
    if item.piece.Some? then item.piece.value else []
  }

  function Appended(items: seq<Item>): Text {
    if items == [] then [] else Appended(items[..|items| - 1]) + Piece(items[|items| - 1])
  }

  /** How a run ended: at a token, at a stop string, or not at all. */
  datatype End = AtToken | AtStop(stop: nat) | Open

  /** A run so far: what was released and what is held back, the items used, and the longest text that
      was compared and not held back. */
  datatype Progress = Progress(released: Text, held: Text, used: nat, longest: nat, end: End)

  /** One round of the server's loop: release on NOT_EOS and EOS and clear the buffer, stop on EOS. */
  function Round(stops: Stops, p: Progress, item: Item): Progress {
    var buffer := p.held + Piece(item);
    var longest := if |buffer| > p.longest then |buffer| else p.longest;
    if item.token in stops.tokens then Progress(p.released + buffer, [], p.used + 1, p.longest, AtToken)
    else
      match stops.First(buffer, 0, 0)
      case NoMatch => Progress(p.released + buffer, [], p.used + 1, longest, Open)
      case Started(_, _) => Progress(p.released, buffer, p.used + 1, p.longest, Open)
      case Found(s, lo) => Progress(p.released + buffer[..lo], [], p.used + 1, longest, AtStop(s))
  }

  function Run(stops: Stops, items: seq<Item>): (p: Progress)
    ensures p.used <= |items| && (p.end == Open ==> p.used == |items|)
  {
    if items == [] then Progress([], [], 0, 0, Open)
    else
      var p := Run(stops, items[..|items| - 1]);
      if p.end == Open then Round(stops, p, items[|items| - 1]) else p
  }

  /** The server's loop. */
  method Drive(detector: EosDetector, items: seq<Item>) returns (released: Text, used: nat, ghost end: End)
    requires detector.buffer == []
    modifies detector
    ensures exists longest: nat :: Run(detector.stops, items) == Progress(released, detector.buffer, used, longest, end)
  {
    hide Stops.First, Run;
    var stops := detector.stops;
    ghost var p := Progress([], [], 0, 0, Open);
    NothingRun(stops);
    released, used, end := [], 0, Open;
    while used < |items|
      invariant used <= |items| && end == Open && p == Run(stops, items[..used])
      invariant p == Progress(released, detector.buffer, used, p.longest, Open)
    {
      var item := items[used];
      RunNext(stops, items, used);
      p := Round(stops, p, item);
      var eosType := detector.Append(item.token, item.piece);
      used := used + 1;
      if eosType == NotEos || eosType == Eos {
        var delta := detector.GetDelta();
        if delta.Some? {
          released := released + delta.value;
        }
        detector.Reset();
      }
      end := p.end;
      assert p == Progress(released, detector.buffer, used, p.longest, end);
      if eosType == Eos {
        RunEnds(stops, items, used);
        return;
      }
    }
    assert items[..used] == items;
  }

  lemma NothingRun(stops: Stops)
    ensures Run(stops, []) == Progress([], [], 0, 0, Open) && Appended([]) == []
  {
  }

  lemma RunNext(stops: Stops, items: seq<Item>, k: nat)
    requires k < |items| && Run(stops, items[..k]).end == Open
    ensures Run(stops, items[..k + 1]) == Round(stops, Run(stops, items[..k]), items[k])
  {
    hide Round;
    assert items[..k + 1][..k] == items[..k];
  }

  /** Nothing is used after an end. */
  lemma {:induction false} RunEnds(stops: Stops, items: seq<Item>, k: nat)
    requires k <= |items| && Run(stops, items[..k]).end != Open
    ensures Run(stops, items) == Run(stops, items[..k])
  {
    hide Round;
    if k < |items| {
      assert items[..|items| - 1][..k] == items[..k];
      RunEnds(stops, items[..|items| - 1], k);
    } else {
      assert items[..k] == items;
    }
  }

  /** The last item of a run. */
  lemma RunLast(stops: Stops, items: seq<Item>)
    requires items != []
    ensures var front, item := items[..|items| - 1], items[|items| - 1];
            var p := Run(stops, front);
            && Run(stops, items) == (if p.end == Open then Round(stops, p, item) else p)
            && p.used <= |front| && p.longest <= Run(stops, items).longest
            && items[..p.used] == front[..p.used]
            && Appended(items) == Appended(front) + Piece(item)
            && (p.end == Open ==> p.used == |front|)
  {
    hide Stops.First;
  }

  /** Until the stop, released and held text together are everything appended; an end token releases
      everything; a stop string cuts the text exactly in front of itself. What is held is short. */
  lemma {:induction false} ReleasedText(stops: Stops, items: seq<Item>)
    ensures var p := Run(stops, items);
            && (p.end == Open ==> p.released + p.held == Appended(items))
            && (p.held == [] || |p.held| < stops.paddingLeft + stops.LongestStop(|stops.pieces|))
            && (p.end == AtToken ==> p.used > 0 && items[p.used - 1].token in stops.tokens && p.released == Appended(items[..p.used]))
            && (p.end.AtStop? ==>
                && p.used > 0 && items[p.used - 1].token !in stops.tokens && p.end.stop < |stops.pieces|
                && p.released + stops.pieces[p.end.stop] <= Appended(items[..p.used])
                && |Appended(items[..p.used])| - |p.released| <= |stops.pieces[p.end.stop]| + stops.paddingRight)
  {
    hide Run, Appended, Stops.First, Stops.LongestStop;
    if items == [] {
      NothingRun(stops);
    } else {
      var front, item := items[..|items| - 1], items[|items| - 1];
      var p := Run(stops, front);
      RunLast(stops, items);
      ReleasedText(stops, front);
      hide Round;
      if p.end == Open {
        assert items[..|items|] == items;
        RoundText(stops, p, item, Appended(items));
      } else if p.used > 0 {
        assert front[p.used - 1] == items[p.used - 1];
      }
    }
  }

  lemma RoundText(stops: Stops, p: Progress, item: Item, text: Text)
    requires p.end == Open && text == p.released + p.held + Piece(item)
    ensures var r := Round(stops, p, item);
            && (r.end == Open ==> r.released + r.held == text && item.token !in stops.tokens)
            && (r.held == [] || |r.held| < stops.paddingLeft + stops.LongestStop(|stops.pieces|))
            && (r.end == AtToken ==> item.token in stops.tokens && r.released == text)
            && (r.end.AtStop? ==>
                && item.token !in stops.tokens && r.end.stop < |stops.pieces|
                && r.released + stops.pieces[r.end.stop] <= text
                && |text| - |r.released| <= |stops.pieces[r.end.stop]| + stops.paddingRight)
  {
    hide Stops.First, Stops.LongestStop;
    var buffer := p.held + Piece(item);
    assert p.released + buffer == text;
    if item.token !in stops.tokens {
      var m := stops.First(buffer, 0, 0);
      if m.Started? {
        stops.HeldIsShort(buffer);
      } else if m.Found? {
        Cut(stops, buffer, p.released, text);
      }
    }
  }

  /** Where a stop string cuts the text. */
  lemma Cut(stops: Stops, buffer: Text, before: Text, text: Text)
    requires stops.First(buffer, 0, 0).Found? && before + buffer == text
    ensures var m := stops.First(buffer, 0, 0);
            && before + buffer[..m.lo] + stops.pieces[m.stop] <= text
            && |buffer| - m.lo <= |stops.pieces[m.stop]| + stops.paddingRight
  {
    stops.FirstIsFirst(buffer, 0, 0);
    var m := stops.First(buffer, 0, 0);
    var piece := stops.pieces[m.stop];
    assert buffer[..m.lo] + piece == buffer[..m.lo + |piece|];
    assert before + buffer[..m.lo] + piece == before + (buffer[..m.lo] + piece) == text[..|before| + m.lo + |piece|];
  }

  /** A stop string stands in the text at `at`. */
  predicate Occurs(text: Text, piece: Text, at: nat) {
    at + |piece| <= |text| && text[at..at + |piece|] == piece
  }

  /** One of the two is the start of the other. */
  predicate Alike(x: Text, y: Text) {
    x <= y || y <= x
  }

  /** Whatever follows `text`, the stop string `piece` does not start in it in front of `end`. */
  ghost predicate Clean(text: Text, piece: Text, end: nat) {
    end <= |text| && forall at | 0 <= at < end :: !Alike(text[at..], piece)
  }

  lemma AlikeFront(x: Text, more: Text, y: Text)
    requires Alike(x + more, y)
    ensures Alike(x, y)
  {
    if |x| <= |y| {
      assert x == (x + more)[..|x|] && forall i | 0 <= i < |x| :: x[i] == (x + more)[i];
    } else {
      assert forall i | 0 <= i < |y| :: x[i] == (x + more)[i];
    }
  }

  lemma CleanStays(text: Text, piece: Text, end: nat, more: Text)
    requires Clean(text, piece, end)
    ensures Clean(text + more, piece, end)
  {
    forall at | 0 <= at < end
      ensures Alike((text + more)[at..], piece) ==> Alike(text[at..], piece)
    {
      hide Alike;
      assert (text + more)[at..] == text[at..] + more;
      if Alike((text + more)[at..], piece) {
        AlikeFront(text[at..], more, piece);
      }
    }
  }

  lemma OccursAlike(text: Text, piece: Text, at: nat)
    requires Occurs(text, piece, at)
    ensures Alike(text[at..], piece)
  {
    assert text[at..][..|piece|] == piece;
  }

  lemma CleanChunk(text: Text, piece: Text, chunk: Text, chunkEnd: nat, end: nat)
    requires Clean(text, piece, Min(|text|, end)) && Clean(chunk, piece, chunkEnd) && end <= |text| + chunkEnd
    ensures Clean(text + chunk, piece, end)
  {
    hide Alike;
    CleanStays(text, piece, Min(|text|, end), chunk);
    forall at | |text| <= at < end
      ensures !Alike((text + chunk)[at..], piece)
    {
      assert (text + chunk)[at..] == chunk[at - |text|..];
    }
  }

  function Min(a: nat, b: nat): nat {
    if a < b then a else b
  }

  /** A buffer that matches at none of the offsets in front of `end`. */
  lemma NoMatchIsClean(stops: Stops, buffer: Text, s: nat, end: nat)
    requires s < |stops.pieces| && end <= |buffer| <= |stops.pieces[s]| + stops.paddingRight
    requires forall lo | 0 <= lo < end :: stops.At(buffer, s, lo) == NoMatch
    ensures Clean(buffer, stops.pieces[s], end)
  {
    var piece := stops.pieces[s];
    forall lo | 0 <= lo < end
      ensures !Alike(buffer[lo..], piece)
    {
      assert stops.At(buffer, s, lo) == NoMatch;
      var n := if |buffer| - lo > |piece| then |piece| else |buffer| - lo;
      assert buffer[lo..lo + n] == buffer[lo..][..n];
    }
  }

  /** No compared text is too long for stop string `s`, and either each is compared at all its offsets or
      only the text in front of `end`, within the left padding, matters. */
  ghost predicate Compared(stops: Stops, longest: nat, s: nat, end: nat) {
    && s < |stops.pieces| && longest <= |stops.pieces[s]| + stops.paddingRight
    && (longest <= stops.paddingLeft + 1 || end <= stops.paddingLeft + 1)
  }

  /** Then stop string `s` does not start in the released text, not even if it ends in text still to
      come. At a stop this holds for it and the stop strings listed before it. */
  lemma {:induction false} ReleasedIsClean(stops: Stops, items: seq<Item>, s: nat, end: nat)
    requires Compared(stops, Run(stops, items).longest, s, end)
    ensures var p := Run(stops, items);
            && (p.end == Open ==> Clean(p.released, stops.pieces[s], Min(|p.released|, end)))
            && (p.end.AtStop? && s <= p.end.stop ==> Clean(Appended(items[..p.used]), stops.pieces[s], Min(|p.released|, end)))
  {
    if items == [] {
      NothingRun(stops);
    } else {
      var front, item := items[..|items| - 1], items[|items| - 1];
      var p := Run(stops, front);
      RunLast(stops, items);
      hide Run, Appended, Clean, Round;
      ReleasedIsClean(stops, front, s, end);
      if p.end == Open {
        ReleasedText(stops, front);
        assert items[..|items|] == items;
        RoundIsClean(stops, p, item, s, end);
      }
    }
  }

  lemma RoundIsClean(stops: Stops, p: Progress, item: Item, s: nat, end: nat)
    requires p.end == Open && Compared(stops, Round(stops, p, item).longest, s, end)
    requires Clean(p.released, stops.pieces[s], Min(|p.released|, end))
    ensures var r := Round(stops, p, item);
            && (r.end == Open ==> Clean(r.released, stops.pieces[s], Min(|r.released|, end)))
            && (r.end.AtStop? && s <= r.end.stop ==>
                  Clean(p.released + p.held + Piece(item), stops.pieces[s], Min(|r.released|, end)))
  {
    hide Stops.First, Stops.At, Clean;
    var buffer, piece := p.held + Piece(item), stops.pieces[s];
    assert p.released + p.held + Piece(item) == p.released + buffer;
    var m := stops.First(buffer, 0, 0);
    stops.FirstIsFirst(buffer, 0, 0);
    if item.token !in stops.tokens && !m.Started? && (m.NoMatch? || s <= m.stop) {
      var compared := if m.NoMatch? then Min(|buffer|, stops.paddingLeft + 1) else m.lo;
      NoMatchIsClean(stops, buffer, s, compared);
      CleanChunk(p.released, piece, buffer, compared, Min(|Round(stops, p, item).released|, end));
    }
  }

  /** Stop string `s` starts in the released text, although the run did not end at a stop listed earlier
      or at a token. */
  predicate Leaks(stops: Stops, items: seq<Item>, s: nat)
    requires s < |stops.pieces|
  {
    var p := Run(stops, items);
    && (p.end == Open || (p.end.AtStop? && s <= p.end.stop))
    && exists at | 0 <= at < |p.released| :: Occurs(Appended(items[..p.used]), stops.pieces[s], at)
  }

  lemma NoLeak(stops: Stops, items: seq<Item>, s: nat, end: nat)
    requires Compared(stops, Run(stops, items).longest, s, end)
    ensures var p := Run(stops, items);
            p.end == Open || (p.end.AtStop? && s <= p.end.stop) ==>
              forall at | 0 <= at < Min(|p.released|, end) :: !Occurs(Appended(items[..p.used]), stops.pieces[s], at)
  {
    ReleasedIsClean(stops, items, s, end);
    ReleasedText(stops, items);
    hide Run, Occurs, Alike, Compared;
    var p, text, piece := Run(stops, items), Appended(items[..Run(stops, items).used]), stops.pieces[s];
    if p.end == Open {
      assert items[..p.used] == items;
      CleanStays(p.released, piece, Min(|p.released|, end), p.held);
    }
    forall at | 0 <= at < Min(|p.released|, end) && Occurs(text, piece, at)
      ensures Alike(text[at..], piece)
    {
      OccursAlike(text, piece, at);
    }
  }

  /** A run does not leak a stop string while every text it compares is compared at all its offsets. */
  lemma ShortTextsNoLeak(stops: Stops, items: seq<Item>, s: nat)
    requires s < |stops.pieces| && Run(stops, items).longest <= Min(stops.paddingLeft + 1, |stops.pieces[s]| + stops.paddingRight)
    ensures !Leaks(stops, items, s)
  {
    NoLeak(stops, items, s, |Run(stops, items).released|);
  }

  /** Nothing longer than the whole text is compared. */
  lemma {:induction false} LongestInText(stops: Stops, items: seq<Item>)
    ensures var p := Run(stops, items);
            && p.longest <= |Appended(items)| && |p.released| <= |Appended(items[..p.used])| <= |Appended(items)|
  {
    if items != [] {
      var front, item := items[..|items| - 1], items[|items| - 1];
      LongestInText(stops, front);
      ReleasedText(stops, front);
      RunLast(stops, items);
      hide Run, Appended, Stops.First, Round;
      assert items[..|items|] == items;
      assert front[..|front|] == front;
      if Run(stops, front).end == Open {
        RoundLengths(stops, Run(stops, front), item);
      }
    }
  }

  lemma RoundLengths(stops: Stops, p: Progress, item: Item)
    ensures var r, n := Round(stops, p, item), |p.released| + |p.held| + |Piece(item)|;
            |r.released| <= n && r.used == p.used + 1 && (r.longest == p.longest || r.longest <= n)
  {
    hide Stops.First;
  }

  /** What a caller can tell beforehand: the texts of at most `n` bytes, in whatever pieces they come, are
      all safe exactly when `n` is at most left padding and stop string together. Beyond that the
      witness is the stop string behind one more byte than the left padding, in one piece. */
  lemma LeaksExactly(stops: Stops, s: nat, n: nat, token: nat, filler: Byte)
    requires s < |stops.pieces| && stops.paddingLeft <= stops.paddingRight
    requires token !in stops.tokens && forall t | 0 <= t < |stops.pieces| :: stops.pieces[t] != [] && stops.pieces[t][0] != filler
    ensures (forall items: seq<Item> | |Appended(items)| <= n :: !Leaks(stops, items, s))
            <==> n <= stops.paddingLeft + |stops.pieces[s]|
  {
    if n <= stops.paddingLeft + |stops.pieces[s]| {
      forall items: seq<Item> | |Appended(items)| <= n
        ensures !Leaks(stops, items, s)
      {
        LongestInText(stops, items);
        NoLeak(stops, items, s, stops.paddingLeft + 1);
      }
    } else {
      var k := stops.paddingLeft + 1;
      var item := Item(token, Some(seq(k, _ => filler) + stops.pieces[s]));
      LongPieceReleased(stops, item, k, filler);
      var text := Appended([item]);
      assert [item][..1] == [item];
      assert text == Piece(item) && text[k..k + |stops.pieces[s]|] == stops.pieces[s];
      assert Occurs(text, stops.pieces[s], k);
      assert Leaks(stops, [item], s);
    }
  }

  /** A piece whose compared offsets hold no first byte of a stop string is released whole. */
  lemma LongPieceReleased(stops: Stops, item: Item, k: nat, filler: Byte)
    requires item.token !in stops.tokens && stops.paddingLeft < k <= |Piece(item)|
    requires forall i | 0 <= i < k :: Piece(item)[i] == filler
    requires forall t | 0 <= t < |stops.pieces| :: stops.pieces[t] != [] && stops.pieces[t][0] != filler
    ensures Run(stops, [item]) == Progress(Piece(item), [], 1, |Piece(item)|, Open) && Appended([item]) == Piece(item)
  {
    var buffer := Piece(item);
    forall t: nat, lo: nat {:trigger stops.At(buffer, t, lo)} | t < |stops.pieces| && lo <= stops.paddingLeft
      ensures stops.At(buffer, t, lo) == NoMatch
    {
      OtherByte(stops, buffer, t, lo);
    }
    hide Stops.At;
    stops.FirstIsFirst(buffer, 0, 0);
    assert [item][..0] == [];
    NothingRun(stops);
    assert [] + buffer == buffer;
  }

  lemma OtherByte(stops: Stops, buffer: Text, t: nat, lo: nat)
    requires t < |stops.pieces| && lo < |buffer| && stops.pieces[t] != [] && buffer[lo] != stops.pieces[t][0]
    ensures stops.At(buffer, t, lo) == NoMatch
  {
    var piece := stops.pieces[t];
    var n := if |buffer| - lo > |piece| then |piece| else |buffer| - lo;
    assert buffer[lo..lo + n][0] == buffer[lo] && piece[..n][0] == piece[0];
  }

  const A := 'a' as int
  const B := 'b' as int

  /** The order of the stop strings counts: a later one in front of an earlier one is released. */
  lemma LaterStopReleased()
    ensures var stops := Stops([], [[B, B], [A, A]], 2, 2);
            Run(stops, [Item(0, Some([A, A, B, B]))]) == Progress([A, A], [], 1, 4, AtStop(0))
  {
    var stops, buffer: Text := Stops([], [[B, B], [A, A]], 2, 2), [A, A, B, B];
    assert buffer[0..2][0] == buffer[1..3][0] == A && [B, B][..2][0] == B;
    assert stops.At(buffer, 0, 0) == NoMatch && stops.At(buffer, 0, 1) == NoMatch;
    assert buffer[2..4] == [B, B] == [B, B][..2];
    assert stops.At(buffer, 0, 2) == Found(0, 2);
    assert stops.First(buffer, 0, 2) == Found(0, 2);
    assert stops.First(buffer, 0, 1) == Found(0, 2);
    assert [Item(0, Some(buffer))][..0] == [];
    assert [] + buffer == buffer && [] + buffer[..2] == [A, A];
  }
}
