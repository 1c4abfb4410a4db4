/** The /process endpoint: it normalises the form fields, decodes the uploads
    into images and a map from upload index to file name, runs the engine
    and attaches the time taken; any exception the handler raises becomes an
    HTTP error. Image decoding, float() and the clock are parameters. */
module Server {
  import opened Builtins
  import opened Text
  import opened Concat
  import opened Vqa

  /** An uploaded file: its name and its raw content. */
  datatype Upload<Content> = Upload(filename: string, content: Content)

  /** The form fields of a request. */
  datatype Request<Content> = Request(images: seq<Upload<Content>>, questions: seq<string>, expected: seq<string>,
                                      batchSize: int, weights: Option<string>, threshold: Option<real>)

  /** The decoded images, in upload order, and idx_to_name. */
  datatype Loaded<Image> = Loaded(images: seq<Image>, names: map<nat, string>)

  /** The response body: the engine's entries and the `time_taken` field. */
  datatype Reply = Reply(entries: map<Key, Verdict>, timeTaken: real)

  /** What the client receives: the body, or an HTTP error status. */
  datatype Http = Json(reply: Reply) | Status(code: int)

  /** The body's `time_taken` field shares the key space of the image entries. */
  const TimeTakenKey := Name("time_taken")

  /** Questions are split as one concatenated string when the first entry
      holds more than one "?"; otherwise the list is used as given. */
  function NormaliseQuestions(questions: seq<string>): (r: Result<seq<string>>)
    ensures r.Err? ==> r.error == EmptyIndex
    ensures r.Err? <==> |questions| == 0 || (Count(questions[0], '?') > 1 && ParseQuestions(questions).Err?)
    ensures |questions| > 0 && Count(questions[0], '?') > 1 ==> r == ParseQuestions(questions)
    ensures |questions| > 0 && Count(questions[0], '?') <= 1 ==> r == Ok(questions)
  {
    if |questions| == 0 then Err(EmptyIndex)
    else if Count(questions[0], '?') > 1 then ParseQuestions(questions)
    else Ok(questions)
  }

  /** Expected answers are parsed as one concatenated string when the first
      entry holds a ","; otherwise each entry is split on whitespace into
      its alternatives. */
  function NormaliseAnswers(expected: seq<string>): (r: Result<seq<seq<string>>>)
    ensures r.Err? <==> |expected| == 0
    ensures r.Err? ==> r.error == EmptyIndex
    ensures |expected| > 0 && ',' in expected[0] ==> r == ParseAnswers(expected)
    ensures r.Ok? && ',' !in expected[0] ==>
      |r.value| == |expected| && forall k | 0 <= k < |expected| :: r.value[k] == Words(expected[k])
  {
    if |expected| == 0 then Err(EmptyIndex)
    else if ',' in expected[0] then ParseAnswers(expected)
    else Ok(seq(|expected|, k requires 0 <= k < |expected| => Words(expected[k])))
  }

  /** [float(x) for x in tokens]: the first token float() rejects raises. */
  function ParseFloats(tokens: seq<string>, toReal: string -> Option<real>): (r: Result<seq<real>>)
    ensures r.Ok? <==> forall k | 0 <= k < |tokens| :: toReal(tokens[k]).Some?
    ensures r.Err? ==> r.error.NotAFloat?
  {
    if |tokens| == 0 then Ok([])
    else match toReal(tokens[0])
      case None => Err(NotAFloat(tokens[0]))
      case Some(x) =>
        match ParseFloats(tokens[1..], toReal)
        case Err(e) => Err(e)
        case Ok(xs) => Ok([x] + xs)
  }

  /** question_weights.split() turned into floats; a missing field is None,
      whose .split() raises. */
  function ParseWeights(weights: Option<string>, toReal: string -> Option<real>): (r: Result<seq<real>>)
    ensures weights.None? ==> r == Err(NoWeights)
    ensures r.Err? ==> r.error == NoWeights || r.error.NotAFloat?
  {
    match weights
    case None => Err(NoWeights)
    case Some(s) => ParseFloats(Words(s), toReal)
  }

  /** The upload loop: each upload's name is recorded under its index and
      its content decoded; the first upload that does not decode raises. */
  function Load<Content, Image>(uploads: seq<Upload<Content>>, decode: Content -> Option<Image>): (r: Result<Loaded<Image>>)
    ensures r.Ok? ==> |r.value.images| == |uploads|
    ensures r.Ok? ==> forall i: nat | i < |uploads| :: i in r.value.names
    ensures r.Ok? ==> forall k | 0 <= k < |uploads| :: decode(uploads[k].content).Some?
    ensures r.Err? ==> exists k | 0 <= k < |uploads| ::
      decode(uploads[k].content).None? && (forall j | 0 <= j < k :: decode(uploads[j].content).Some?) &&
      r.error == UndecodableImage(uploads[k].filename)
  {
    if |uploads| == 0 then Ok(Loaded([], map[]))
    else
      var n := |uploads| - 1;
      assert forall k | 0 <= k < n :: uploads[..n][k] == uploads[k];
      match Load(uploads[..n], decode)
      case Err(e) => Err(e)
      case Ok(l) =>
        match decode(uploads[n].content)
        case None => Err(UndecodableImage(uploads[n].filename))
        case Some(image) => Ok(Loaded(l.images + [image], l.names[n := uploads[n].filename]))
  }

  /** Lines 49-54 of process_images: processed_images and idx_to_name are
      built one upload at a time. */
  method LoadImages<Content, Image>(uploads: seq<Upload<Content>>, decode: Content -> Option<Image>)
    returns (r: Result<Loaded<Image>>)
    ensures r == Load(uploads, decode)
  {
    var processed: seq<Image> := [];
    var names: map<nat, string> := map[];
    var idx := 0;
    while idx < |uploads|
      invariant 0 <= idx <= |uploads|
      invariant Load(uploads[..idx], decode) == Ok(Loaded(processed, names))
    {
      assert uploads[..idx + 1][..idx] == uploads[..idx];
      names := names[idx := uploads[idx].filename];
      var image := decode(uploads[idx].content);
      if image.None? {
        LoadPrefixErr(uploads, idx + 1, decode);
        return Err(UndecodableImage(uploads[idx].filename));
      }
      processed := processed + [image.value];
      idx := idx + 1;
    }
    assert uploads[..idx] == uploads;
    return Ok(Loaded(processed, names));
  }

  /** Once a prefix of the uploads fails to load, the whole list fails the
      same way: later uploads are never looked at. */
  lemma {:induction false} LoadPrefixErr<Content, Image>(uploads: seq<Upload<Content>>, j: nat, decode: Content -> Option<Image>)
    requires j <= |uploads| && Load(uploads[..j], decode).Err?
    ensures Load(uploads, decode) == Load(uploads[..j], decode)
    decreases |uploads|
  {
    if j == |uploads| {
      assert uploads[..j] == uploads;
    } else {
      var n := |uploads| - 1;
      assert uploads[..n][..j] == uploads[..j];
      LoadPrefixErr(uploads[..n], j, decode);
      LoadErrStep(uploads, decode);
    }
  }

  /** A failure among all but the last upload is the failure of the whole list. */
  lemma LoadErrStep<Content, Image>(uploads: seq<Upload<Content>>, decode: Content -> Option<Image>)
    requires |uploads| > 0 && Load(uploads[..|uploads| - 1], decode).Err?
    ensures Load(uploads, decode) == Load(uploads[..|uploads| - 1], decode)
  {
  }

  /** Loading succeeds exactly when every upload decodes; the k-th image is
      then the k-th upload decoded and idx_to_name maps k to its file name. */
  lemma {:induction false} LoadMeaning<Content, Image>(uploads: seq<Upload<Content>>, decode: Content -> Option<Image>)
    ensures Load(uploads, decode).Ok? <==> forall k | 0 <= k < |uploads| :: decode(uploads[k].content).Some?
    ensures Load(uploads, decode).Ok? ==>
      && (forall i: nat :: i in Load(uploads, decode).value.names <==> i < |uploads|)
      && forall k | 0 <= k < |uploads| ::
           && Load(uploads, decode).value.images[k] == decode(uploads[k].content).value
           && Load(uploads, decode).value.names[k] == uploads[k].filename
  {
    if |uploads| > 0 {
      var n := |uploads| - 1;
      var front := uploads[..n];
      LoadMeaning(front, decode);
      assert forall k | 0 <= k < n :: front[k] == uploads[k];
      if Load(uploads, decode).Ok? {
        var l := Load(front, decode).value;
        assert forall i: nat :: i in Load(uploads, decode).value.names <==> i in l.names || i == n;
      }
    }
  }

  /** process_images on a request: the normalised fields go to the engine,
      whose output is returned with `time_taken` set, overwriting an image
      entry filed under that name. */
  function Process<Content, Image>(req: Request<Content>, decode: Content -> Option<Image>,
                                   toReal: string -> Option<real>, gen: Generator<Image>, elapsed: real): (r: Result<Reply>)
    ensures r.Ok? ==> TimeTakenKey !in r.value.entries && r.value.timeTaken == elapsed
  {
    match NormaliseQuestions(req.questions)
    case Err(e) => Err(e)
    case Ok(questions) =>
      match NormaliseAnswers(req.expected)
      case Err(e) => Err(e)
      case Ok(expected) =>
        match ParseWeights(req.weights, toReal)
        case Err(e) => Err(e)
        case Ok(weights) =>
          match Load(req.images, decode)
          case Err(e) => Err(e)
          case Ok(loaded) =>
            match Evaluate(questions, expected, loaded.images, req.batchSize, weights, req.threshold, loaded.names, gen)
            case Err(e) => Err(e)
            case Ok(output) => Ok(Reply(output - {TimeTakenKey}, elapsed))
  }

  /** The handler step by step: normalise, load the uploads, call the engine. */
  method ProcessImages<Content, Image>(req: Request<Content>, decode: Content -> Option<Image>,
                                       toReal: string -> Option<real>, gen: Generator<Image>, elapsed: real)
    returns (r: Result<Reply>)
    ensures r == Process(req, decode, toReal, gen, elapsed)
  {
    var questions := NormaliseQuestions(req.questions);
    if questions.Err? {
      return Err(questions.error);
    }
    var expected := NormaliseAnswers(req.expected);
    if expected.Err? {
      return Err(expected.error);
    }
    var weights := ParseWeights(req.weights, toReal);
    if weights.Err? {
      return Err(weights.error);
    }
    var loaded := LoadImages(req.images, decode);
    if loaded.Err? {
      return Err(loaded.error);
    }
    var output := Call(questions.value, expected.value, loaded.value.images, req.batchSize, weights.value,
                       req.threshold, loaded.value.names, gen);
    if output.Err? {
      return Err(output.error);
    }
    return Ok(Reply(output.value - {TimeTakenKey}, elapsed));
  }

  /** The two except clauses: a validation error is a 400, anything else a 500. */
  function StatusOf(e: Exception): (code: int)
    ensures code == 400 <==> e == RequestValidation
    ensures code == 400 || code == 500
  {
    if e == RequestValidation then 400 else 500
  }

  function Respond(r: Result<Reply>): (h: Http)
    ensures r.Ok? <==> h.Json?
  {
    match r
    case Ok(reply) => Json(reply)
    case Err(e) => Status(StatusOf(e))
  }

  /** Nothing the handler body calls raises a validation error, so every
      failure of the body reaches the client as a 500. */
  lemma FailuresAre500<Content, Image>(req: Request<Content>, decode: Content -> Option<Image>,
                                       toReal: string -> Option<real>, gen: Generator<Image>, elapsed: real)
    requires Process(req, decode, toReal, gen, elapsed).Err?
    ensures Respond(Process(req, decode, toReal, gen, elapsed)) == Status(500)
  {
    var r := Process(req, decode, toReal, gen, elapsed);
    assert r.error != RequestValidation;
  }

  /** float() failures name the first token it rejects. */
  lemma {:induction false} ParseFloatsError(tokens: seq<string>, toReal: string -> Option<real>)
    ensures ParseFloats(tokens, toReal).Err? ==> exists k | 0 <= k < |tokens| ::
      toReal(tokens[k]).None? && (forall j | 0 <= j < k :: toReal(tokens[j]).Some?) &&
      ParseFloats(tokens, toReal).error == NotAFloat(tokens[k])
  {
    if |tokens| > 0 && toReal(tokens[0]).Some? {
      ParseFloatsError(tokens[1..], toReal);
      if ParseFloats(tokens, toReal).Err? {
        var k :| 0 <= k < |tokens[1..]| && toReal(tokens[1..][k]).None? &&
          (forall j | 0 <= j < k :: toReal(tokens[1..][j]).Some?) &&
          ParseFloats(tokens[1..], toReal).error == NotAFloat(tokens[1..][k]);
        assert tokens[1..][k] == tokens[k + 1];
        assert forall j | 0 < j < k + 1 :: tokens[j] == tokens[1..][j - 1];
      }
    }
  }

  /** A successful weights parse gives one float per whitespace-separated
      token, in order. */
  lemma {:induction false} ParseFloatsValues(tokens: seq<string>, toReal: string -> Option<real>)
    requires ParseFloats(tokens, toReal).Ok?
    ensures |ParseFloats(tokens, toReal).value| == |tokens|
    ensures forall k | 0 <= k < |tokens| :: ParseFloats(tokens, toReal).value[k] == toReal(tokens[k]).value
  {
    if |tokens| > 0 {
      ParseFloatsValues(tokens[1..], toReal);
    }
  }

  /** The entries of a successful reply are keyed by the uploads' file
      names, except a file named "time_taken", whose entry the time field
      replaces. */
  lemma ReplyKeys<Content, Image>(req: Request<Content>, decode: Content -> Option<Image>,
                                  toReal: string -> Option<real>, gen: Generator<Image>, elapsed: real)
    requires Process(req, decode, toReal, gen, elapsed).Ok?
    ensures Process(req, decode, toReal, gen, elapsed).value.entries.Keys
         == (set k | 0 <= k < |req.images| :: Name(req.images[k].filename)) - {TimeTakenKey}
  {
    var questions := NormaliseQuestions(req.questions).value;
    var expected := NormaliseAnswers(req.expected).value;
    var weights := ParseWeights(req.weights, toReal).value;
    var loaded := Load(req.images, decode).value;
    var out := Evaluate(questions, expected, loaded.images, req.batchSize, weights, req.threshold, loaded.names, gen).value;
    EngineOutputKeys(questions, expected, loaded.images, req.batchSize, weights, req.threshold, loaded.names, gen, out);
    LoadedKeys(req.images, decode);
  }

  /** With at least one upload idx_to_name is non-empty, so the engine keys
      every image by its file name. */
  lemma LoadedKeys<Content, Image>(uploads: seq<Upload<Content>>, decode: Content -> Option<Image>)
    requires Load(uploads, decode).Ok?
    ensures var names := Load(uploads, decode).value.names;
            (set i | 0 <= i < |uploads| :: KeyOf(names, i)) == (set k | 0 <= k < |uploads| :: Name(uploads[k].filename))
  {
    var names := Load(uploads, decode).value.names;
    var n := |uploads|;
    var byIndex := set i | 0 <= i < n :: KeyOf(names, i);
    var byName := set k | 0 <= k < n :: Name(uploads[k].filename);
    assert forall i | 0 <= i < n :: KeyOf(names, i) == Name(uploads[i].filename) by {
      LoadMeaning(uploads, decode);
      if n > 0 {
        assert 0 in names;
      }
    }
    forall x | x in byIndex ensures x in byName {
      var i :| 0 <= i < n && x == KeyOf(names, i);
    }
    forall x | x in byName ensures x in byIndex {
      var k :| 0 <= k < n && x == Name(uploads[k].filename);
      assert x == KeyOf(names, k);
    }
  }

  /** The question list form survives normalisation unchanged when its first
      entry has at most one "?", and the concatenated form of two or more
      well-formed questions is split back into them. */
  lemma QuestionsNormalised(qs: seq<string>, more: seq<string>)
    requires |qs| >= 2 && forall k | 0 <= k < |qs| :: WellFormedQuestion(qs[k])
    ensures NormaliseQuestions([Join(qs, GroupSeparator)] + more) == Ok(qs)
  {
    var joined := Join(qs, GroupSeparator);
    var rest := Join(qs[1..], GroupSeparator);
    assert joined == qs[0] + GroupSeparator + rest;
    CountAppend(qs[0] + GroupSeparator, rest, '?');
    CountAppend(qs[0], GroupSeparator, '?');
    assert '?' in qs[0] by {
      assert WellFormedQuestion(qs[0]);
      assert qs[0][|qs[0]| - 1] == '?';
    }
    assert '?' in rest by {
      assert WellFormedQuestion(qs[1..][0]);
      JoinHead(qs[1..], GroupSeparator);
      assert rest[|qs[1]| - 1] == qs[1][|qs[1]| - 1] == '?';
    }
    QuestionsRoundTrip(qs, more);
  }

  /** The first part of a join is a prefix of it. */
  lemma JoinHead(parts: seq<string>, sep: string)
    requires |parts| >= 1
    ensures |parts[0]| <= |Join(parts, sep)| && Join(parts, sep)[..|parts[0]|] == parts[0]
  {
    if |parts| > 1 {
      assert Join(parts, sep) == parts[0] + (sep + Join(parts[1..], sep));
    }
  }

  /** Two or more comma-joined answer groups are parsed back into the groups. */
  lemma AnswersNormalised(groups: seq<seq<string>>, more: seq<string>)
    requires |groups| >= 2 && WellFormedGroups(groups)
    ensures NormaliseAnswers([Join(AnswerFields(groups), GroupSeparator)] + more) == Ok(groups)
  {
    var fields := AnswerFields(groups);
    var joined := Join(fields, GroupSeparator);
    assert joined == fields[0] + GroupSeparator + Join(fields[1..], GroupSeparator);
    assert joined[|fields[0]|] == ',';
    AnswersRoundTrip(groups, more);
  }

  /** In the list form every entry is one space-separated group of
      alternatives; without commas it is split back into the groups. */
  lemma AnswerListNormalised(groups: seq<seq<string>>)
    requires |groups| >= 1 && WellFormedGroups(groups)
    ensures NormaliseAnswers(AnswerFields(groups)) == Ok(groups)
  {
    var fields := AnswerFields(groups);
    assert ',' !in fields[0] by {
      JoinWordsChars(groups[0], ',');
    }
    var r := NormaliseAnswers(fields);
    assert r.Ok? && |r.value| == |groups|;
    forall k | 0 <= k < |groups| ensures r.value[k] == groups[k] {
      assert r.value[k] == Words(fields[k]);
      WordsJoinWords(groups[k]);
    }
    assert r.value == groups;
  }
}
