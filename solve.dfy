/** `solve_math_problem`: the request handler. It reads the uploaded image,
    recognises the problem text, asks the chat service for a solution and
    parses the reply; the first step that fails decides the response. The
    image decoder, the OCR engine and the chat service are parameters, and
    the handler reports which of the two external services it called. */
module Service {
  import opened Text
  import opened Preprocess
  import opened LineAssembly
  import opened AnswerParser

  /** The multipart form: with or without an `image` file field. */
  datatype Upload = NoImageField | ImageField(data: seq<bv8>)

  /** What PIL makes of the uploaded bytes: `Image.open` rejects them, or it
      accepts them and the conversion to a grey, contrast enhanced and
      sharpened buffer inside `ocr_image` either raises (`None`) or yields
      the grey levels. */
  datatype Decoded = Unreadable | Readable(grey: Option<seq<Grey>>)

  /** `choices[0].message.content`: a string, or some other JSON value. */
  datatype Content = TextContent(text: string) | OtherContent

  /** The `usage` member of the reply: absent, an object with or without
      `total_tokens`, or a value that is not an object. */
  datatype Usage = NoUsage | UsageObject(totalTokens: Option<int>) | MalformedUsage

  /** What `call_siliconflow_api` and the lookup of `choices[0].message.content`
      give once a request was sent: an exception (network error, HTTP error
      status, a body that is not JSON, a missing member), or the content and
      the usage. */
  datatype ChatResult = ChatFailed | ChatAnswered(content: Option<Content>, usage: Usage)

  datatype ErrorKind =
    | MissingImage     // "请上传图片文件"
    | InvalidImage     // "无效的图片文件: ..."
    | OcrError         // "OCR识别失败: ..."
    | NoProblemText    // "未识别到题目文本，请上传清晰的图片"
    | MissingApiKey    // "未配置SiliconFlow API密钥，请检查环境变量"
    | ApiError         // "API调用失败: ..." / "处理API响应失败: ..." / a failed lookup
    | Internal         // "服务内部错误: ..."

  /** The JSON body the handler returns. */
  datatype Response =
    | Solved(problem: string, answer: string, steps: seq<string>, tokensUsed: int)
    | Failed(kind: ErrorKind)

  /** A call to an outside service: the OCR engine on the binarised image, or
      the chat completion request with the problem text. */
  datatype Call = Recognize(image: seq<Grey>) | PostChat(problem: string)

  datatype Outcome = Outcome(response: Response, calls: seq<Call>)

  predicate ClientError(k: ErrorKind) {
    k == MissingImage || k == InvalidImage || k == NoProblemText
  }

  /** The HTTP status that goes with a response. */
  function Status(r: Response): (code: int)
    ensures code == 200 || code == 400 || code == 500
    ensures code == 200 <==> r.Solved?
    ensures code == 400 <==> r.Failed? && ClientError(r.kind)
  {
    if r.Solved? then 200 else if ClientError(r.kind) then 400 else 500
  }

  /** `if not SILICONFLOW_API_KEY`: an unset variable and an empty one both
      count as missing. */
  predicate KeyConfigured(key: Option<string>) {
    key.Some? && key.value != ""
  }

  /** `result.get('usage', {}).get('total_tokens', 0)`; `None` when `usage`
      is not an object and the lookup raises. */
  function TokensUsed(u: Usage): Option<int> {
    match u
    case NoUsage => Some(0)
    case UsageObject(t) => if t.Some? then Some(t.value) else Some(0)
    case MalformedUsage => None
  }

  /** From the chat service's answer to the response. */
  function Answered(problem: string, res: ChatResult): Response {
    match res
    case ChatFailed => Failed(ApiError)
    case ChatAnswered(content, usage) =>
      if content.None? then Failed(ApiError)
      else if content.value.OtherContent? then Failed(Internal)
      else if TokensUsed(usage).None? then Failed(Internal)
      else
        var reply := Parsed(content.value.text);
        Solved(problem, reply.answer, reply.steps, TokensUsed(usage).value)
  }

  /** The handler, stage by stage; the first failure decides the response. */
  function Handle(upload: Upload, decode: seq<bv8> -> Decoded,
                  recognize: seq<Grey> -> EngineOutput, key: Option<string>,
                  chat: string -> ChatResult): Outcome
  {
    if upload.NoImageField? then Outcome(Failed(MissingImage), [])
    else
      match decode(upload.data)
      case Unreadable => Outcome(Failed(InvalidImage), [])
      case Readable(grey) =>
        if grey.None? then Outcome(Failed(OcrError), [])
        else Recognition(Binarize(grey.value), recognize, key, chat)
  }

  /** From the binarised image on: the OCR engine is called on it, and the
      rest depends on what `ocr_image` makes of the engine's output. */
  function Recognition(image: seq<Grey>, recognize: seq<Grey> -> EngineOutput,
                       key: Option<string>, chat: string -> ChatResult): Outcome
  {
    var rest := AfterRecognition(OcrOutcome(recognize(image)), key, chat);
    Outcome(rest.response, [Recognize(image)] + rest.calls)
  }

  /** From the outcome of `ocr_image` on: the empty-text check, the key guard
      of `call_siliconflow_api`, the request and the reply. */
  function AfterRecognition(ocr: OcrResult, key: Option<string>, chat: string -> ChatResult): Outcome {
    match ocr
    case OcrFailed => Outcome(Failed(OcrError), [])
    case Recognised(problem) =>
      if problem == [] then Outcome(Failed(NoProblemText), [])
      else if !KeyConfigured(key) then Outcome(Failed(MissingApiKey), [])
      else Outcome(Answered(problem, chat(problem)), [PostChat(problem)])
  }

  /** The handler as the service runs it: early returns in the order of the
      checks, the line assembly loop and the reply parser with its
      renumbering loop. */
  method SolveMathProblem(upload: Upload, decode: seq<bv8> -> Decoded,
                          recognize: seq<Grey> -> EngineOutput, key: Option<string>,
                          chat: string -> ChatResult)
    returns (response: Response, calls: seq<Call>)
    ensures Outcome(response, calls) == Handle(upload, decode, recognize, key, chat)
  {
    calls := [];
    if upload.NoImageField? {
      return Failed(MissingImage), calls;
    }
    var decoded := decode(upload.data);
    if decoded.Unreadable? {
      return Failed(InvalidImage), calls;
    }
    if decoded.grey.None? {
      return Failed(OcrError), calls;
    }
    var image := Binarize(decoded.grey.value);
    assert Handle(upload, decode, recognize, key, chat) == Recognition(image, recognize, key, chat);
    calls := calls + [Recognize(image)];
    var ocr := OcrImage(recognize(image));
    ghost var rest := AfterRecognition(ocr, key, chat);
    assert Recognition(image, recognize, key, chat) == Outcome(rest.response, calls + rest.calls);
    if ocr.OcrFailed? {
      return Failed(OcrError), calls;
    }
    var problem := ocr.text;
    if problem == [] {
      return Failed(NoProblemText), calls;
    }
    if !KeyConfigured(key) {
      return Failed(MissingApiKey), calls;
    }
    calls := calls + [PostChat(problem)];
    var res := chat(problem);
    if res.ChatFailed? || res.content.None? {
      return Failed(ApiError), calls;
    }
    if res.content.value.OtherContent? {
      return Failed(Internal), calls;
    }
    var steps, answer := ParseReply(res.content.value.text);
    var tokens := TokensUsed(res.usage);
    if tokens.None? {
      return Failed(Internal), calls;
    }
    response := Solved(problem, answer, steps, tokens.value);
  }

  // ---------------------------------------------------------- properties

  /** The upload has an image field whose bytes PIL opens and converts, so
      the OCR engine is reached. */
  predicate ReachesOcr(upload: Upload, decode: seq<bv8> -> Decoded) {
    upload.ImageField? && decode(upload.data).Readable? && decode(upload.data).grey.Some?
  }

  /** The image the OCR engine is given. */
  function EngineImage(upload: Upload, decode: seq<bv8> -> Decoded): seq<Grey>
    requires ReachesOcr(upload, decode)
  {
    Binarize(decode(upload.data).grey.value)
  }

  /** The handler reaches the OCR engine exactly when the image is there and
      readable; otherwise it fails without calling anything. */
  lemma HandleStages(upload: Upload, decode: seq<bv8> -> Decoded,
                     recognize: seq<Grey> -> EngineOutput, key: Option<string>,
                     chat: string -> ChatResult)
    ensures ReachesOcr(upload, decode) ==>
              Handle(upload, decode, recognize, key, chat) ==
              Recognition(EngineImage(upload, decode), recognize, key, chat)
    ensures !ReachesOcr(upload, decode) ==>
              Handle(upload, decode, recognize, key, chat).calls == [] &&
              Handle(upload, decode, recognize, key, chat).response.Failed?
  {
  }

  /** After the OCR stage, a request is sent only for a non-empty text and
      with a configured key, and then it carries that text. */
  lemma AfterRecognitionSends(ocr: OcrResult, key: Option<string>, chat: string -> ChatResult, p: string)
    requires PostChat(p) in AfterRecognition(ocr, key, chat).calls
    ensures ocr == Recognised(p) && p != [] && KeyConfigured(key)
    ensures AfterRecognition(ocr, key, chat) == Outcome(Answered(p, chat(p)), [PostChat(p)])
  {
  }

  /** A solved response after the OCR stage means a non-empty text, a
      configured key and one request. */
  lemma AfterRecognitionSolved(ocr: OcrResult, key: Option<string>, chat: string -> ChatResult)
    requires AfterRecognition(ocr, key, chat).response.Solved?
    ensures ocr.Recognised? && ocr.text != [] && KeyConfigured(key)
    ensures AfterRecognition(ocr, key, chat) ==
            Outcome(Answered(ocr.text, chat(ocr.text)), [PostChat(ocr.text)])
  {
  }

  /** What the chat service's answer turns into: a solution only for text
      content and a readable token count, and never a client error. */
  lemma AnsweredCases(problem: string, res: ChatResult)
    ensures res.ChatFailed? || res.content.None? ==> Answered(problem, res) == Failed(ApiError)
    ensures res.ChatAnswered? && res.content.Some? && res.content.value.OtherContent? ==>
              Answered(problem, res) == Failed(Internal)
    ensures Answered(problem, res).Solved? <==>
              res.ChatAnswered? && res.content.Some? && res.content.value.TextContent? &&
              TokensUsed(res.usage).Some?
    ensures Answered(problem, res).Solved? ==>
              var r := Answered(problem, res);
              r.problem == problem && Reply(r.steps, r.answer) == Parsed(res.content.value.text) &&
              Some(r.tokensUsed) == TokensUsed(res.usage)
    ensures Status(Answered(problem, res)) != 400
  {
  }

  /** The services are called in order, each at most once: the OCR engine
      first, on a black-and-white image, and the chat service only after it. */
  lemma CallsInOrder(upload: Upload, decode: seq<bv8> -> Decoded,
                     recognize: seq<Grey> -> EngineOutput, key: Option<string>,
                     chat: string -> ChatResult)
    ensures var calls := Handle(upload, decode, recognize, key, chat).calls;
            |calls| <= 2 &&
            (calls != [] <==> ReachesOcr(upload, decode)) &&
            (calls != [] ==> calls[0] == Recognize(EngineImage(upload, decode)) && IsBilevel(calls[0].image)) &&
            (|calls| == 2 ==> calls[1].PostChat?)
  {
    HandleStages(upload, decode, recognize, key, chat);
    if ReachesOcr(upload, decode) {
      var image := EngineImage(upload, decode);
      BinarizeIsBilevel(decode(upload.data).grey.value);
      var rest := AfterRecognition(OcrOutcome(recognize(image)), key, chat);
      assert |rest.calls| <= 1 && (rest.calls != [] ==> rest.calls[0].PostChat?);
      assert Handle(upload, decode, recognize, key, chat).calls == [Recognize(image)] + rest.calls;
    }
  }

  /** The chat service is asked only with a configured key and a non-empty,
      normalised problem text, which is what the OCR stage assembled from
      the first page of the binarised image. */
  lemma ChatOnlyWithKeyAndText(upload: Upload, decode: seq<bv8> -> Decoded,
                               recognize: seq<Grey> -> EngineOutput, key: Option<string>,
                               chat: string -> ChatResult, p: string)
    requires PostChat(p) in Handle(upload, decode, recognize, key, chat).calls
    ensures KeyConfigured(key) && ReachesOcr(upload, decode)
    ensures var out := recognize(EngineImage(upload, decode));
            out.EngineReturned? && out.pages != [] && out.pages[0].Some? &&
            p == AssembledText(out.pages[0].value)
    ensures p != [] && WellSpaced(p)
  {
    HandleStages(upload, decode, recognize, key, chat);
    var image := EngineImage(upload, decode);
    var out := recognize(image);
    var rest := AfterRecognition(OcrOutcome(out), key, chat);
    assert PostChat(p) in rest.calls by {
      assert Handle(upload, decode, recognize, key, chat).calls == [Recognize(image)] + rest.calls;
    }
    AfterRecognitionSends(OcrOutcome(out), key, chat, p);
    AssembledWellSpaced(out.pages[0].value);
  }

  /** An engine that finds no text, or only blank lines, on the first page
      gets a 400 "no problem text" response, and the chat service is never
      called. */
  lemma NoTextNoChat(upload: Upload, decode: seq<bv8> -> Decoded,
                     recognize: seq<Grey> -> EngineOutput, key: Option<string>,
                     chat: string -> ChatResult)
    requires ReachesOcr(upload, decode)
    requires var out := recognize(EngineImage(upload, decode));
             out.EngineReturned? &&
             (out.pages == [] || (out.pages[0].Some? && forall l :: l in out.pages[0].value ==> IsBlank(l.text)))
    ensures var o := Handle(upload, decode, recognize, key, chat);
            o.response == Failed(NoProblemText) && Status(o.response) == 400 &&
            o.calls == [Recognize(EngineImage(upload, decode))]
  {
    HandleStages(upload, decode, recognize, key, chat);
    OcrEmptyIff(recognize(EngineImage(upload, decode)));
  }

  /** Without a key the handler never sends a request: it fails with one of
      the earlier errors or with the missing key, a 500. */
  lemma MissingKeyNoChat(upload: Upload, decode: seq<bv8> -> Decoded,
                         recognize: seq<Grey> -> EngineOutput, key: Option<string>,
                         chat: string -> ChatResult)
    requires !KeyConfigured(key)
    ensures var o := Handle(upload, decode, recognize, key, chat);
            (forall c :: c in o.calls ==> c.Recognize?) &&
            o.response.Failed? &&
            o.response.kind in {MissingImage, InvalidImage, OcrError, NoProblemText, MissingApiKey}
  {
  }

  /** The checks run in the order of the handler, and where one fails its
      response is the one returned, whatever the later stages would give. */
  lemma FirstFailureWins(upload: Upload, decode: seq<bv8> -> Decoded,
                         recognize: seq<Grey> -> EngineOutput, key: Option<string>,
                         chat: string -> ChatResult)
    ensures upload.NoImageField? ==>
              Handle(upload, decode, recognize, key, chat).response == Failed(MissingImage)
    ensures upload.ImageField? && decode(upload.data).Unreadable? ==>
              Handle(upload, decode, recognize, key, chat).response == Failed(InvalidImage)
    ensures upload.ImageField? && decode(upload.data) == Readable(None) ==>
              Handle(upload, decode, recognize, key, chat).response == Failed(OcrError)
    ensures ReachesOcr(upload, decode) && OcrOutcome(recognize(EngineImage(upload, decode))).OcrFailed? ==>
              Handle(upload, decode, recognize, key, chat).response == Failed(OcrError)
    ensures ReachesOcr(upload, decode) && OcrOutcome(recognize(EngineImage(upload, decode))) == Recognised([]) ==>
              Handle(upload, decode, recognize, key, chat).response == Failed(NoProblemText)
    ensures ReachesOcr(upload, decode) && !KeyConfigured(key) &&
            OcrOutcome(recognize(EngineImage(upload, decode))).Recognised? &&
            OcrOutcome(recognize(EngineImage(upload, decode))).text != [] ==>
              Handle(upload, decode, recognize, key, chat).response == Failed(MissingApiKey)
  {
  }

  /** Once the request is sent, the response is what the chat service's
      answer turns into: a failed call or a reply without content is a 500,
      and so is content that is not a string. */
  lemma ChatFailures(upload: Upload, decode: seq<bv8> -> Decoded,
                     recognize: seq<Grey> -> EngineOutput, key: Option<string>,
                     chat: string -> ChatResult, p: string)
    requires PostChat(p) in Handle(upload, decode, recognize, key, chat).calls
    ensures Handle(upload, decode, recognize, key, chat).response == Answered(p, chat(p))
    ensures chat(p).ChatFailed? || chat(p).content.None? ==>
              Handle(upload, decode, recognize, key, chat).response == Failed(ApiError)
    ensures chat(p).ChatAnswered? && chat(p).content.Some? && chat(p).content.value.OtherContent? ==>
              Handle(upload, decode, recognize, key, chat).response == Failed(Internal)
    ensures Status(Handle(upload, decode, recognize, key, chat).response) != 400
  {
    ChatOnlyWithKeyAndText(upload, decode, recognize, key, chat, p);
    HandleStages(upload, decode, recognize, key, chat);
    var image := EngineImage(upload, decode);
    var ocr := OcrOutcome(recognize(image));
    var rest := AfterRecognition(ocr, key, chat);
    assert Handle(upload, decode, recognize, key, chat).calls == [Recognize(image)] + rest.calls;
    assert PostChat(p) in rest.calls;
    AfterRecognitionSends(ocr, key, chat, p);
    AnsweredCases(p, chat(p));
  }

  /** A solved response carries the recognised problem, and the steps and the
      answer the parser reads from the chat reply's text content. */
  lemma SolvedMeans(upload: Upload, decode: seq<bv8> -> Decoded,
                    recognize: seq<Grey> -> EngineOutput, key: Option<string>,
                    chat: string -> ChatResult)
    requires Handle(upload, decode, recognize, key, chat).response.Solved?
    ensures var o := Handle(upload, decode, recognize, key, chat);
            var r := o.response;
            ReachesOcr(upload, decode) &&
            o.calls == [Recognize(EngineImage(upload, decode)), PostChat(r.problem)] &&
            r.problem != [] && WellSpaced(r.problem) &&
            chat(r.problem).ChatAnswered? && chat(r.problem).content.Some? &&
            chat(r.problem).content.value.TextContent? &&
            Reply(r.steps, r.answer) == Parsed(chat(r.problem).content.value.text) &&
            Some(r.tokensUsed) == TokensUsed(chat(r.problem).usage)
  {
    HandleStages(upload, decode, recognize, key, chat);
    var image := EngineImage(upload, decode);
    var ocr := OcrOutcome(recognize(image));
    AfterRecognitionSolved(ocr, key, chat);
    var p := ocr.text;
    AnsweredCases(p, chat(p));
    assert Handle(upload, decode, recognize, key, chat).calls == [Recognize(image)] + [PostChat(p)];
    ChatOnlyWithKeyAndText(upload, decode, recognize, key, chat, p);
  }

  /** The client errors are the missing image, the unreadable image and the
      image without text; every other failure is a server error. */
  lemma StatusOfFailures(k: ErrorKind)
    ensures Status(Failed(k)) == 400 <==> k in {MissingImage, InvalidImage, NoProblemText}
    ensures Status(Failed(k)) == 500 <==> k in {OcrError, MissingApiKey, ApiError, Internal}
  {
  }
}
