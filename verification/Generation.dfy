/** What a completion request should produce, computed without any cache: every logits vector is
    evaluated from position 0 (the reference for ApiServer::provideContent in src/dllama-api.cpp). */
module Generation {
  import opened Wrappers
  import opened Vectors
  import opened TokenBytes
  import opened Transformer
  import opened PrefixCacheManager

  type Text = seq<Byte>

  /** One sampled token: what the sampler, the decoder and the stop detector make of the logits.
      `delta` is the text released by it; `stop` is the detector's EOS. */
  datatype Sampled<S> = Sampled(token: Token, state: S, delta: Text, stop: bool)

  /** `begin` resets the decoder and the detector; the sampler's random state lives on in `S`. */
  datatype Generator<!S> = Generator(begin: S -> S, next: (S, Vec) -> Sampled<S>)

  /** `prompt` is None when the chat does not fit the context. */
  datatype Request = Request(prompt: Option<seq<Token>>, maxTokens: int)

  datatype ChatCompletion = ChatCompletion(text: Text, promptTokens: nat, completionTokens: nat, totalTokens: nat)

  /** Overrun: the pass that saves the last rows asserts a position inside the context. */
  datatype Outcome = Served(completion: ChatCompletion) | Overrun

  datatype Completion<S> = Completion(tokens: seq<Token>, state: S, text: Text)

  function Limit(promptTokens: nat, maxTokens: int, seqLen: nat): (r: nat)
    ensures r <= seqLen
    ensures 0 < promptTokens <= seqLen ==> promptTokens <= r
  {
    if maxTokens > 0 && promptTokens + maxTokens <= seqLen then promptTokens + maxTokens else seqLen
  }

  /** Tokens are appended while the last position is below `limit` and no stop was detected. */
  function Complete<S>(net: Net, gen: Generator<S>, tokens: seq<Token>, s: S, limit: nat): (c: Completion<S>)
    requires tokens != []
    ensures tokens <= c.tokens && (|tokens| <= limit + 1 ==> |c.tokens| <= limit + 1)
    ensures |tokens| <= limit ==> |tokens| < |c.tokens|
    decreases limit + 1 - |tokens|
  {
    if |tokens| > limit then Completion(tokens, s, [])
    else
      var r := gen.next(s, Logits(net, tokens, |tokens| - 1));
      if r.stop then Completion(tokens + [r.token], r.state, r.delta)
      else
        var c := Complete(net, gen, tokens + [r.token], r.state, limit);
        c.(text := r.delta + c.text)
  }

  /** The completion a request gets from a model that keeps nothing between requests. */
  function Uncached<S>(net: Net, gen: Generator<S>, publicPrompt: Text, seqLen: nat, prompt: seq<Token>, maxTokens: int, s: S)
    : Completion<S>
    requires prompt != []
  {
    var c := Complete(net, gen, prompt, gen.begin(s), Limit(|prompt|, maxTokens, seqLen));
    c.(text := publicPrompt + c.text)
  }

  predicate WellFormed(req: Request, seqLen: nat) {
    req.prompt.Some? ==> 0 < |req.prompt.value| <= seqLen
  }

  /** The pass that saves the final rows runs only with a database, for at least MIN_LEN tokens. */
  predicate Overruns(hasDb: bool, seqLen: nat, tokens: seq<Token>) {
    hasDb && |tokens| == seqLen + 1 && seqLen >= MIN_LEN
  }

  function Serve<S>(net: Net, gen: Generator<S>, publicPrompt: Text, seqLen: nat, hasDb: bool, req: Request, s: S)
    : (r: (Outcome, S))
    requires WellFormed(req, seqLen)
  {
    if req.prompt == None then (Served(ChatCompletion([], seqLen, 0, seqLen)), s)
    else
      var c := Uncached(net, gen, publicPrompt, seqLen, req.prompt.value, req.maxTokens, s);
      if Overruns(hasDb, seqLen, c.tokens) then (Overrun, c.state)
      else
        var n := |req.prompt.value|;
        (Served(ChatCompletion(c.text, n, |c.tokens| - n, |c.tokens|)), c.state)
  }

  /** A run of requests, up to the first that overruns. */
  function ServeAll<S>(net: Net, gen: Generator<S>, publicPrompt: Text, seqLen: nat, hasDb: bool, reqs: seq<Request>, s: S)
    : (outcomes: seq<Outcome>)
    requires forall r <- reqs :: WellFormed(r, seqLen)
    ensures |outcomes| <= |reqs|
  {
    if reqs == [] then []
    else
      var (o, s') := Serve(net, gen, publicPrompt, seqLen, hasDb, reqs[0], s);
      if o == Overrun then [o] else [o] + ServeAll(net, gen, publicPrompt, seqLen, hasDb, reqs[1..], s')
  }

  /** What a caller can tell before the call: no saving pass, or an end before the context is full. */
  predicate Bounded(hasDb: bool, seqLen: nat, req: Request) {
    || !hasDb || seqLen < MIN_LEN || req.prompt == None
    || (0 < req.maxTokens && |req.prompt.value| + req.maxTokens < seqLen)
  }

  /** It never stops by itself. */
  function NeverStops<S>(): Generator<S> {
    Generator((s: S) => s, (s: S, v: Vec) => Sampled(0, s, [], false))
  }

  lemma {:induction false} NeverStopsFills<S>(net: Net, tokens: seq<Token>, s: S, limit: nat)
    requires 0 < |tokens| <= limit + 1
    ensures |Complete(net, NeverStops(), tokens, s, limit).tokens| == limit + 1
    decreases limit + 1 - |tokens|
  {
    if |tokens| <= limit {
      var gen := NeverStops<S>();
      var r := gen.next(s, Logits(net, tokens, |tokens| - 1));
      NeverStopsFills(net, tokens + [r.token], r.state, limit);
    }
  }

  /** A bounded request is served, whatever is generated. */
  lemma BoundedIsServed<S>(net: Net, gen: Generator<S>, publicPrompt: Text, seqLen: nat, hasDb: bool, req: Request, s: S)
    requires WellFormed(req, seqLen) && Bounded(hasDb, seqLen, req)
    ensures Serve(net, gen, publicPrompt, seqLen, hasDb, req, s).0.Served?
  {
  }

  /** The saving pass asserts a position inside the context. A request fails that assertion under no generator
      exactly when it is bounded. */
  lemma OverrunsExactly<S(!new)>(net: Net, publicPrompt: Text, seqLen: nat, hasDb: bool, req: Request, s0: S)
    requires WellFormed(req, seqLen)
    ensures (forall gen: Generator<S>, s: S :: Serve(net, gen, publicPrompt, seqLen, hasDb, req, s).0 != Overrun)
            <==> Bounded(hasDb, seqLen, req)
  {
    if Bounded(hasDb, seqLen, req) {
      forall gen: Generator<S>, s: S
        ensures Serve(net, gen, publicPrompt, seqLen, hasDb, req, s).0 != Overrun
      {
        BoundedIsServed(net, gen, publicPrompt, seqLen, hasDb, req, s);
      }
    } else {
      var prompt, limit := req.prompt.value, Limit(|req.prompt.value|, req.maxTokens, seqLen);
      NeverStopsFills(net, prompt, NeverStops<S>().begin(s0), limit);
      assert Serve(net, NeverStops(), publicPrompt, seqLen, hasDb, req, s0).0 == Overrun;
    }
  }

  /** Every request of a run of bounded requests is served. */
  lemma {:induction false} BoundedServesAll<S>(net: Net, gen: Generator<S>, publicPrompt: Text, seqLen: nat, hasDb: bool,
                                               reqs: seq<Request>, s: S)
    requires forall r <- reqs :: WellFormed(r, seqLen) && Bounded(hasDb, seqLen, r)
    ensures var os := ServeAll(net, gen, publicPrompt, seqLen, hasDb, reqs, s);
            |os| == |reqs| && forall o <- os :: o.Served?
  {
    if reqs != [] {
      var (o, s') := Serve(net, gen, publicPrompt, seqLen, hasDb, reqs[0], s);
      BoundedIsServed(net, gen, publicPrompt, seqLen, hasDb, reqs[0], s);
      BoundedServesAll(net, gen, publicPrompt, seqLen, hasDb, reqs[1..], s');
    }
  }

  /** It does not end an answer by itself. */
  ghost predicate NonStop<S(!new)>(gen: Generator<S>) {
    forall s: S, v: Vec :: !gen.next(s, v).stop
  }

  /** How many tokens an answer has: up to one more than a token limit within the context, up to one more than
      the rest of the context otherwise. */
  predicate AnswerLength(req: Request, seqLen: nat, n: nat, full: bool) {
    req.prompt.Some? ==>
      var p := |req.prompt.value|;
      && n > 0
      && (0 < req.maxTokens && p + req.maxTokens <= seqLen ==>
            if full then n == req.maxTokens + 1 else n <= req.maxTokens + 1)
      && (req.maxTokens <= 0 || p + req.maxTokens > seqLen ==>
            if full then n == seqLen - p + 1 else n <= seqLen - p + 1)
  }

  /** The tokens and the text of a list of samples. */
  function TokensOf<S>(samples: seq<Sampled<S>>): (ts: seq<Token>)
    ensures |ts| == |samples| && forall i | 0 <= i < |ts| :: ts[i] == samples[i].token
  {
    seq(|samples|, i requires 0 <= i < |samples| => samples[i].token)
  }

  function DeltasOf<S>(samples: seq<Sampled<S>>): (ds: seq<Text>)
    ensures |ds| == |samples| && forall i | 0 <= i < |ds| :: ds[i] == samples[i].delta
  {
    seq(|samples|, i requires 0 <= i < |samples| => samples[i].delta)
  }

  /** Sample `i` is drawn from the logits after the prompt and the earlier samples, evaluated from position 0,
      in the state the sample before it left. */
  ghost predicate DrawnAt<S>(net: Net, gen: Generator<S>, tokens: seq<Token>, s: S, samples: seq<Sampled<S>>, i: nat)
    requires tokens != [] && i < |samples|
  {
    samples[i] == gen.next(if i == 0 then s else samples[i - 1].state,
                           Logits(net, tokens + TokensOf(samples[..i]), |tokens| + i - 1))
  }

  /** None but the last sample stops. */
  ghost predicate Drawn<S>(net: Net, gen: Generator<S>, tokens: seq<Token>, s: S, samples: seq<Sampled<S>>)
    requires tokens != []
  {
    forall i: nat | i < |samples| :: DrawnAt(net, gen, tokens, s, samples, i) && (i + 1 < |samples| ==> !samples[i].stop)
  }

  lemma TokensFirst<S>(tokens: seq<Token>, r: Sampled<S>, rest: seq<Sampled<S>>, i: nat)
    requires i <= |rest|
    ensures ([r] + rest)[..i + 1] == [r] + rest[..i]
    ensures tokens + TokensOf(([r] + rest)[..i + 1]) == tokens + [r.token] + TokensOf(rest[..i])
  {
    var a, b := tokens + TokensOf([r] + rest[..i]), tokens + [r.token] + TokensOf(rest[..i]);
    assert ([r] + rest)[..i + 1] == [r] + rest[..i];
    hide TokensOf;
    assert |a| == |b| && forall k | 0 <= k < |a| :: a[k] == b[k];
  }

  lemma DrawnFirst<S>(net: Net, gen: Generator<S>, tokens: seq<Token>, s: S, r: Sampled<S>, rest: seq<Sampled<S>>)
    requires tokens != [] && r == gen.next(s, Logits(net, tokens, |tokens| - 1)) && (rest != [] ==> !r.stop)
    requires Drawn(net, gen, tokens + [r.token], r.state, rest)
    ensures Drawn(net, gen, tokens, s, [r] + rest)
  {
    hide Logits, TokensOf, DrawnAt;
    var samples := [r] + rest;
    forall i: nat | i < |samples|
      ensures DrawnAt(net, gen, tokens, s, samples, i)
    {
      if i == 0 {
        DrawnHere(net, gen, tokens, s, samples);
      } else {
        DrawnLater(net, gen, tokens, s, r, rest, i - 1);
      }
    }
  }

  lemma DrawnHere<S>(net: Net, gen: Generator<S>, tokens: seq<Token>, s: S, samples: seq<Sampled<S>>)
    requires tokens != [] && samples != [] && samples[0] == gen.next(s, Logits(net, tokens, |tokens| - 1))
    ensures DrawnAt(net, gen, tokens, s, samples, 0)
  {
    hide Logits;
    assert tokens + TokensOf(samples[..0]) == tokens;
  }

  lemma DrawnLater<S>(net: Net, gen: Generator<S>, tokens: seq<Token>, s: S, r: Sampled<S>, rest: seq<Sampled<S>>, i: nat)
    requires tokens != [] && i < |rest| && DrawnAt(net, gen, tokens + [r.token], r.state, rest, i)
    ensures DrawnAt(net, gen, tokens, s, [r] + rest, i + 1)
  {
    TokensFirst(tokens, r, rest, i);
    hide Logits, TokensOf;
    assert ([r] + rest)[i] == if i == 0 then r else rest[i - 1];
  }

  /** A completion is a list of samples, up to one that stops or up to the limit. */
  lemma {:induction false} CompleteSamples<S>(net: Net, gen: Generator<S>, tokens: seq<Token>, s: S, limit: nat)
    returns (samples: seq<Sampled<S>>)
    requires 0 < |tokens| <= limit
    ensures samples != [] && Drawn(net, gen, tokens, s, samples)
    ensures samples[|samples| - 1].stop || |tokens| + |samples| == limit + 1
    ensures |tokens| + |samples| <= limit + 1
    ensures Complete(net, gen, tokens, s, limit)
         == Completion(tokens + TokensOf(samples), samples[|samples| - 1].state, Concat(DeltasOf(samples)))
    decreases limit - |tokens|
  {
    hide Logits, TokensOf, DeltasOf, Drawn, Concat;
    var r := gen.next(s, Logits(net, tokens, |tokens| - 1));
    if !r.stop && |tokens| < limit {
      var rest := CompleteSamples(net, gen, tokens + [r.token], r.state, limit);
      samples := [r] + rest;
      DrawnFirst(net, gen, tokens, s, r, rest);
      DeltasFirst(r, rest);
      TokensFirst(tokens, r, rest, |rest|);
      assert rest[..|rest|] == rest && samples[..|samples|] == samples;
    } else {
      samples := [r];
      NothingDrawn(net, gen, tokens + [r.token], r.state);
      DrawnFirst(net, gen, tokens, s, r, []);
      assert [r] + [] == [r];
      OneSample(tokens, r);
    }
  }

  lemma NothingDrawn<S>(net: Net, gen: Generator<S>, tokens: seq<Token>, s: S)
    requires tokens != []
    ensures Drawn(net, gen, tokens, s, [])
  {
  }

  lemma OneSample<S>(tokens: seq<Token>, r: Sampled<S>)
    ensures tokens + TokensOf([r]) == tokens + [r.token] && Concat(DeltasOf([r])) == r.delta
  {
    assert DeltasOf([r])[..0] == [];
    assert Concat(DeltasOf([r])[..0]) == [];
  }

  lemma DeltasFirst<S>(r: Sampled<S>, rest: seq<Sampled<S>>)
    ensures Concat(DeltasOf([r] + rest)) == r.delta + Concat(DeltasOf(rest))
  {
    ConcatFirst(DeltasOf([r] + rest));
    assert DeltasOf([r] + rest)[1..] == DeltasOf(rest);
  }

  /** What an answer is: samples drawn one after the other, from the prompt's end to the first one that stops or
      to the bound, all of their text behind the public prompt. */
  ghost predicate AnswerFrom<S>(net: Net, gen: Generator<S>, publicPrompt: Text, seqLen: nat, hasDb: bool, req: Request, s: S,
                                samples: seq<Sampled<S>>, o: Outcome, s': S)
    requires req.prompt.Some? && req.prompt.value != [] && samples != []
  {
    var p, last := req.prompt.value, samples[|samples| - 1];
    && Drawn(net, gen, p, gen.begin(s), samples) && s' == last.state && AnswerLength(req, seqLen, |samples|, !last.stop)
    && o == (if hasDb && seqLen >= 128 && |p| + |samples| == seqLen + 1 then Overrun
             else Served(ChatCompletion(publicPrompt + Concat(DeltasOf(samples)), |p|, |samples|, |p| + |samples|)))
  }

  /** A request without a prompt has no answer. */
  ghost predicate AnswerIs<S(!new)>(net: Net, gen: Generator<S>, publicPrompt: Text, seqLen: nat, hasDb: bool, req: Request, s: S,
                                  o: Outcome, s': S)
    requires WellFormed(req, seqLen)
  {
    if req.prompt == None then o == Served(ChatCompletion([], seqLen, 0, seqLen)) && s' == s
    else exists samples: seq<Sampled<S>> ::
           samples != [] && AnswerFrom(net, gen, publicPrompt, seqLen, hasDb, req, s, samples, o, s')
  }

  lemma ServedAnswer<S(!new)>(net: Net, gen: Generator<S>, publicPrompt: Text, seqLen: nat, hasDb: bool, req: Request, s: S)
    requires req.prompt.Some? ==> 0 < |req.prompt.value| <= seqLen
    ensures var (o, s') := Serve(net, gen, publicPrompt, seqLen, hasDb, req, s);
            AnswerIs(net, gen, publicPrompt, seqLen, hasDb, req, s, o, s')
  {
    hide Drawn, Complete;
    if req.prompt.Some? {
      var p := req.prompt.value;
      var samples := CompleteSamples(net, gen, p, gen.begin(s), Limit(|p|, req.maxTokens, seqLen));
      var (o, s') := Serve(net, gen, publicPrompt, seqLen, hasDb, req, s);
      assert AnswerFrom(net, gen, publicPrompt, seqLen, hasDb, req, s, samples, o, s');
    }
  }

  /** What a request leaves in the slot: its prompt and its answer but for the last token. */
  function Remembered<S>(net: Net, gen: Generator<S>, seqLen: nat, req: Request, s: S): (t: seq<Token>)
    requires WellFormed(req, seqLen) && req.prompt.Some?
    ensures req.prompt.value <= t
  {
    var ts := Complete(net, gen, req.prompt.value, gen.begin(s), Limit(|req.prompt.value|, req.maxTokens, seqLen)).tokens;
    ts[..|ts| - 1]
  }

  lemma RememberedIs<S>(net: Net, gen: Generator<S>, publicPrompt: Text, seqLen: nat, hasDb: bool, req: Request, s: S)
    returns (samples: seq<Sampled<S>>)
    requires WellFormed(req, seqLen) && req.prompt.Some?
    ensures var (o, s') := Serve(net, gen, publicPrompt, seqLen, hasDb, req, s);
            samples != [] && AnswerFrom(net, gen, publicPrompt, seqLen, hasDb, req, s, samples, o, s')
    ensures Remembered(net, gen, seqLen, req, s) == req.prompt.value + TokensOf(samples)[..|samples| - 1]
  {
    hide Drawn, Complete;
    var p := req.prompt.value;
    samples := CompleteSamples(net, gen, p, gen.begin(s), Limit(|p|, req.maxTokens, seqLen));
  }

  /** An answer is as long as it may be when the generator does not stop. */
  lemma LengthOfAnswer<S(!new)>(net: Net, gen: Generator<S>, publicPrompt: Text, seqLen: nat, hasDb: bool, req: Request, s: S,
                               o: Outcome, s': S)
    requires WellFormed(req, seqLen) && req.prompt.Some? && AnswerIs(net, gen, publicPrompt, seqLen, hasDb, req, s, o, s')
    ensures o.Served? ==> AnswerLength(req, seqLen, o.completion.completionTokens, NonStop(gen))
  {
    var samples: seq<Sampled<S>> :| samples != [] && AnswerFrom(net, gen, publicPrompt, seqLen, hasDb, req, s, samples, o, s');
    assert DrawnAt(net, gen, req.prompt.value, gen.begin(s), samples, |samples| - 1);
  }

  /** The answers of a run, each from the state the one before it left, and their lengths. */
  ghost predicate Answers<S(!new)>(net: Net, gen: Generator<S>, publicPrompt: Text, seqLen: nat, hasDb: bool, reqs: seq<Request>,
                                   os: seq<Outcome>, states: seq<S>)
    requires forall r <- reqs :: WellFormed(r, seqLen)
  {
    && |os| <= |reqs| && |states| == |os| + 1
    && (forall i | 0 <= i < |os| :: (os[i], states[i + 1]) == Serve(net, gen, publicPrompt, seqLen, hasDb, reqs[i], states[i]))
    && (|os| < |reqs| ==> os != [] && os[|os| - 1] == Overrun) && (forall i | 0 <= i < |os| - 1 :: os[i] != Overrun)
    && (forall i | 0 <= i < |os| :: AnswerIs(net, gen, publicPrompt, seqLen, hasDb, reqs[i], states[i], os[i], states[i + 1]))
    && (forall i | 0 <= i < |os| && reqs[i].prompt.Some? && os[i].Served? ::
          AnswerLength(reqs[i], seqLen, os[i].completion.completionTokens, NonStop(gen)))
  }

  lemma AnswersFirst<S(!new)>(net: Net, gen: Generator<S>, publicPrompt: Text, seqLen: nat, hasDb: bool, reqs: seq<Request>,
                              s: S, o: Outcome, os: seq<Outcome>, states: seq<S>)
    requires reqs != [] && (forall r <- reqs :: WellFormed(r, seqLen)) && states != [] && o != Overrun
    requires (o, states[0]) == Serve(net, gen, publicPrompt, seqLen, hasDb, reqs[0], s)
    requires AnswerIs(net, gen, publicPrompt, seqLen, hasDb, reqs[0], s, o, states[0])
    requires reqs[0].prompt.Some? && o.Served? ==> AnswerLength(reqs[0], seqLen, o.completion.completionTokens, NonStop(gen))
    requires Answers(net, gen, publicPrompt, seqLen, hasDb, reqs[1..], os, states)
    ensures Answers(net, gen, publicPrompt, seqLen, hasDb, reqs, [o] + os, [s] + states)
  {
    hide Serve, AnswerIs, AnswerLength, NonStop;
  }

  lemma {:induction false} RunAnswers<S(!new)>(net: Net, gen: Generator<S>, publicPrompt: Text, seqLen: nat, hasDb: bool,
                                               reqs: seq<Request>, s: S) returns (states: seq<S>)
    requires forall r <- reqs :: WellFormed(r, seqLen)
    ensures Answers(net, gen, publicPrompt, seqLen, hasDb, reqs, ServeAll(net, gen, publicPrompt, seqLen, hasDb, reqs, s), states)
    ensures |states| > 0 && states[0] == s
  {
    hide Serve, AnswerIs, AnswerLength, NonStop;
    if reqs == [] {
      states := [s];
    } else {
      var (o, s') := Serve(net, gen, publicPrompt, seqLen, hasDb, reqs[0], s);
      assert WellFormed(reqs[0], seqLen);
      ServedAnswer(net, gen, publicPrompt, seqLen, hasDb, reqs[0], s);
      if reqs[0].prompt.Some? {
        LengthOfAnswer(net, gen, publicPrompt, seqLen, hasDb, reqs[0], s, o, s');
      }
      if o == Overrun {
        states := [s, s'];
      } else {
        var rest := RunAnswers(net, gen, publicPrompt, seqLen, hasDb, reqs[1..], s');
        states := [s] + rest;
        AnswersFirst(net, gen, publicPrompt, seqLen, hasDb, reqs, s, o,
                     ServeAll(net, gen, publicPrompt, seqLen, hasDb, reqs[1..], s'), rest);
      }
    }
  }

  /** The request records a prefix of the maximum length: that of its answer, or that of its prompt when it
      overruns. */
  predicate RecordsLong<S>(net: Net, gen: Generator<S>, publicPrompt: Text, seqLen: nat, hasDb: bool, req: Request, s: S)
    requires WellFormed(req, seqLen)
  {
    && hasDb && req.prompt.Some?
    && var c := Uncached(net, gen, publicPrompt, seqLen, req.prompt.value, req.maxTokens, s);
       (if Overruns(hasDb, seqLen, c.tokens) then |req.prompt.value| else |c.tokens|) > MAX_LEN
  }

  /** Some request of the run does. */
  predicate RunRecordsLong<S>(net: Net, gen: Generator<S>, publicPrompt: Text, seqLen: nat, hasDb: bool, reqs: seq<Request>, s: S)
    requires forall r <- reqs :: WellFormed(r, seqLen)
  {
    && reqs != []
    && (|| RecordsLong(net, gen, publicPrompt, seqLen, hasDb, reqs[0], s)
        || (var (o, s') := Serve(net, gen, publicPrompt, seqLen, hasDb, reqs[0], s);
            o != Overrun && RunRecordsLong(net, gen, publicPrompt, seqLen, hasDb, reqs[1..], s')))
  }

  /** In a context of at most the maximum length no run does. */
  lemma {:induction false} ShortContext<S>(net: Net, gen: Generator<S>, publicPrompt: Text, seqLen: nat, hasDb: bool,
                                           reqs: seq<Request>, s: S)
    requires (forall r <- reqs :: WellFormed(r, seqLen)) && (hasDb ==> seqLen <= MAX_LEN)
    ensures !RunRecordsLong(net, gen, publicPrompt, seqLen, hasDb, reqs, s)
  {
    if reqs != [] {
      var (o, s') := Serve(net, gen, publicPrompt, seqLen, hasDb, reqs[0], s);
      assert !RecordsLong(net, gen, publicPrompt, seqLen, hasDb, reqs[0], s);
      ShortContext(net, gen, publicPrompt, seqLen, hasDb, reqs[1..], s');
    }
  }

  /** In a longer one a prompt of more than the maximum length does, whatever is generated. */
  lemma LongPrompt<S>(net: Net, gen: Generator<S>, publicPrompt: Text, seqLen: nat, req: Request, s: S)
    requires WellFormed(req, seqLen) && req.prompt.Some? && |req.prompt.value| > MAX_LEN
    ensures RecordsLong(net, gen, publicPrompt, seqLen, true, req, s)
  {
  }

  /** No run records a prefix of the maximum length exactly when there is no database or the context is at most
      that long. */
  lemma RecordsLongExactly<S(!new)>(net: Net, gen: Generator<S>, publicPrompt: Text, seqLen: nat, hasDb: bool, s: S, first: Token)
    ensures (forall reqs: seq<Request> | forall r <- reqs :: WellFormed(r, seqLen) ::
               !RunRecordsLong(net, gen, publicPrompt, seqLen, hasDb, reqs, s))
            <==> !hasDb || seqLen <= MAX_LEN
  {
    if !hasDb || seqLen <= MAX_LEN {
      forall reqs: seq<Request> | forall r <- reqs :: WellFormed(r, seqLen)
        ensures !RunRecordsLong(net, gen, publicPrompt, seqLen, hasDb, reqs, s)
      {
        ShortContext(net, gen, publicPrompt, seqLen, hasDb, reqs, s);
      }
    } else {
      var req := Request(Some(seq(seqLen, _ => first)), 0);
      LongPrompt(net, gen, publicPrompt, seqLen, req, s);
      assert RunRecordsLong(net, gen, publicPrompt, seqLen, hasDb, [req], s);
    }
  }
}
