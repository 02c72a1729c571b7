/**
 * The extraction adapter `analyzeStatements` (backend/src/services/claudeService.ts):
 * it turns each statement file into a request content block, appends the
 * analysis prompt, asks the remote model, takes the first text block of the
 * reply, strips markdown code fences from it and parses it as an analysis.
 * The remote model (`ask`) and `JSON.parse` (`parse`) are parameters; the
 * bytes of a file are represented by the path they are read from.
 */
module Extraction {
  import opened Wrappers
  import opened Text
  import opened Analysis

  datatype FileInput = FileInput(filePath: string, fileName: string, fileType: string)

  /** A block of the request: a PDF document, an image with its media type, or the fixed analysis prompt. */
  datatype ContentBlock = Document(source: string) | Image(mediaType: string, source: string) | Prompt

  /** A block of the model's reply. */
  datatype ReplyBlock = TextBlock(text: string) | OtherBlock

  const AiErrorPrefix := "AI service error: "
  const AiErrorFallback := "Failed to connect to AI service"
  const NoTextError := "No text response from Claude"
  const ParseError := "Failed to parse analysis results. Please try again."

  /** The block a file contributes: PDFs become documents, types starting with "image/" images, anything else nothing. */
  function BlockFor(f: FileInput): Option<ContentBlock>
  {
    if f.fileType == "application/pdf" then Some(Document(f.filePath))
    else if StartsWith(f.fileType, "image/") then Some(Image(f.fileType, f.filePath))
    else None
  }

  /** The blocks of a list of files, in file order. */
  function Blocks(files: seq<FileInput>): (bs: seq<ContentBlock>)
    ensures |bs| <= |files|
    ensures Prompt !in bs
  {
    if files == [] then []
    else
      (match BlockFor(files[0]) case Some(b) => [b] case None => []) + Blocks(files[1..])
  }

  /** The first text block of a reply (`content.find(c => c.type === 'text')`). */
  function FirstText(reply: seq<ReplyBlock>): (t: Option<string>)
    ensures t.Some? <==> exists i :: 0 <= i < |reply| && reply[i].TextBlock?
    ensures t.Some? ==>
      exists i :: 0 <= i < |reply| && reply[i] == TextBlock(t.value) && (forall j :: 0 <= j < i ==> !reply[j].TextBlock?)
  {
    if reply == [] then None
    else if reply[0].TextBlock? then Some(reply[0].text)
    else
      var t := FirstText(reply[1..]);
      assert forall i :: 0 < i < |reply| ==> reply[i] == reply[1..][i - 1];
      t
  }

  // ---------------------------------------------------------------------------
  // Code-fence stripping

  /** Removes a leading three backticks plus "json" in any case, and the white space after them. */
  function DropJsonFence(s: string): string
  {
    if StartsWith(s, "```") && StartsWithJsonIgnoringCase(s[3..]) then TrimStart(s[7..]) else s
  }

  /** Removes leading three backticks and the white space after them. */
  function DropOpenFence(s: string): string
  {
    if StartsWith(s, "```") then TrimStart(s[3..]) else s
  }

  /**
   * Removes three backticks followed by nothing but white space. Such a match
   * is unique when it exists, and it exists exactly when `s` without its
   * trailing white space ends with three backticks.
   */
  function DropCloseFence(s: string): string
  {
    var t := TrimEnd(s);
    if EndsWith(t, "```") then t[..|t| - 3] else s
  }

  /** The text handed to `JSON.parse`: trimmed, a "```json" fence removed, then a plain "```" fence. */
  function StripFences(text: string): (r: string)
    ensures Trimmed(r)
  {
    var once := Trim(DropCloseFence(DropJsonFence(Trim(text))));
    Trim(DropCloseFence(DropOpenFence(once)))
  }

  /** Neither begins nor ends with a fence. */
  predicate Unfenced(s: string)
  {
    !StartsWith(s, "```") && !EndsWith(s, "```")
  }

  lemma StripTrimmedUnfenced(u: string)
    requires Trimmed(u) && Unfenced(u)
    ensures Trim(DropCloseFence(DropOpenFence(u))) == u
  {
    TrimEndOfNoTrailingSpace(u);
    TrimOfTrimmed(u);
  }

  /**
   * A reply that is, after trimming, "```json" (any case) + inner + "```" yields
   * the trimmed inner text, when that text carries no fence of its own.
   */
  lemma StripJsonFenced(text: string, tag: string, inner: string)
    requires |tag| == 4 && StartsWithJsonIgnoringCase(tag)
    requires Trim(text) == "```" + tag + inner + "```"
    requires Unfenced(Trim(inner))
    ensures StripFences(text) == Trim(inner)
  {
    var t0 := Trim(text);
    var x := TrimStart(inner) + "```";
    JsonFenceDropped(t0, tag, inner);
    assert DropCloseFence(x) == TrimStart(inner) by {
      TrimEndOfNoTrailingSpace(x);
      assert x[..|x| - 3] == TrimStart(inner);
    }
    assert Trim(TrimStart(inner)) == Trim(inner) by {
      TrimStartIdempotent(inner);
    }
    StripTrimmedUnfenced(Trim(inner));
  }

  lemma JsonFenceDropped(t0: string, tag: string, inner: string)
    requires |tag| == 4 && StartsWithJsonIgnoringCase(tag)
    requires t0 == "```" + tag + inner + "```"
    ensures DropJsonFence(t0) == TrimStart(inner) + "```"
  {
    var rest := tag + inner + "```";
    assert t0 == "```" + rest;
    assert t0[3..] == rest && rest[..4] == tag;
    JsonTagTransfers(rest, tag);
    assert t0[7..] == rest[4..] == inner + "```";
    TrimStartAppend(inner, "```");
  }

  lemma JsonTagTransfers(s: string, tag: string)
    requires |tag| == 4 && StartsWithJsonIgnoringCase(tag)
    requires |s| >= 4 && s[..4] == tag
    ensures StartsWithJsonIgnoringCase(s)
  {
    assert s[0] == tag[0] && s[1] == tag[1] && s[2] == tag[2] && s[3] == tag[3];
  }

  lemma NotJsonAfterAppend(inner: string)
    requires !StartsWithJsonIgnoringCase(inner)
    ensures !StartsWithJsonIgnoringCase(inner + "```")
  {
    var s := inner + "```";
    if |inner| >= 4 {
      assert s[..4] == inner[..4];
    } else {
      assert s[|inner|] == '`';
    }
  }

  /** A reply that is, after trimming, "```" + inner + "```" (inner not starting with "json") yields the trimmed inner text. */
  lemma StripPlainFenced(text: string, inner: string)
    requires Trim(text) == "```" + inner + "```"
    requires !StartsWithJsonIgnoringCase(inner)
    requires Unfenced(Trim(inner))
    ensures StripFences(text) == Trim(inner)
  {
    PlainFirstPass(Trim(text), inner);
    PlainSecondPass(inner);
  }

  /**
   * Without the condition on the inner text both passes strip a fence: a json
   * fence around a plain-fenced text `u` loses the inner opening fence too, so
   * the result is `u` and not the trimmed inner text "```" + `u`.
   */
  lemma NestedFenceStrippedTwice(text: string, tag: string, inner: string, u: string)
    requires |tag| == 4 && StartsWithJsonIgnoringCase(tag)
    requires Trimmed(u) && Unfenced(u)
    requires inner == "```" + u && text == "```" + tag + inner + "```"
    ensures Trim(text) == text
    ensures StripFences(text) == u
    ensures Trim(inner) == inner
  {
    NestedFirstPass(text, tag, inner, u);
    NestedSecondPass(u);
  }

  /** The plain pass then removes the inner opening fence. */
  lemma NestedSecondPass(u: string)
    requires Trimmed(u) && Unfenced(u)
    ensures Trim(DropCloseFence(DropOpenFence("```" + u))) == u
  {
    TrimEndOfNoTrailingSpace(u);
    TrimOfTrimmed(u);
    PlainSecondPass(u);
  }

  /** The json pass removes the outer fence and leaves the inner plain-fenced text. */
  lemma NestedFirstPass(text: string, tag: string, inner: string, u: string)
    requires |tag| == 4 && StartsWithJsonIgnoringCase(tag)
    requires Trimmed(u)
    requires inner == "```" + u && text == "```" + tag + inner + "```"
    ensures Trim(text) == text
    ensures Trim(DropCloseFence(DropJsonFence(text))) == inner
    ensures Trim(inner) == inner
  {
    OuterFenceTrimmed(text, tag, inner);
    FencedIsTrimmed(u);
    JsonFenceDropped(text, tag, inner);
    PlainCloseDropped(inner + "```", u);
  }

  /** A text that starts and ends with a fence is trimmed. */
  lemma OuterFenceTrimmed(text: string, tag: string, inner: string)
    requires text == "```" + tag + inner + "```"
    ensures Trim(text) == text
  {
    assert text[0] == '`' && text[|text| - 1] == '`';
    TrimOfTrimmed(text);
  }

  /** "```" + `u` is trimmed when `u` is. */
  lemma FencedIsTrimmed(u: string)
    requires Trimmed(u)
    ensures Trimmed("```" + u)
    ensures TrimStart("```" + u) == "```" + u && Trim("```" + u) == "```" + u
  {
    var inner := "```" + u;
    assert inner[0] == '`';
    if u != [] {
      assert inner[|inner| - 1] == u[|u| - 1];
    }
    TrimStartOfNoLeadingSpace(inner);
    TrimOfTrimmed(inner);
  }

  /** The first pass leaves a plain fence alone except for the closing backticks. */
  lemma PlainFirstPass(t0: string, inner: string)
    requires t0 == "```" + inner + "```"
    requires !StartsWithJsonIgnoringCase(inner)
    ensures Trim(DropCloseFence(DropJsonFence(t0))) == "```" + TrimEnd(inner)
  {
    PlainNotJson(t0, inner);
    PlainCloseDropped(t0, inner);
    var y := "```" + inner;
    TrimStartOfNoLeadingSpace(y);
    TrimEndPrepend("```", inner);
  }

  lemma PlainNotJson(t0: string, inner: string)
    requires t0 == "```" + inner + "```"
    requires !StartsWithJsonIgnoringCase(inner)
    ensures DropJsonFence(t0) == t0
  {
    assert t0[3..] == inner + "```";
    NotJsonAfterAppend(inner);
  }

  lemma PlainCloseDropped(t0: string, inner: string)
    requires t0 == "```" + inner + "```"
    ensures DropCloseFence(t0) == "```" + inner
  {
    assert t0[|t0| - 1] == '`';
    TrimEndOfNoTrailingSpace(t0);
    assert t0[|t0| - 3..] == "```";
    assert t0[..|t0| - 3] == "```" + inner;
  }

  /** The second pass removes the opening backticks and leaves the trimmed inner text. */
  lemma PlainSecondPass(inner: string)
    requires Unfenced(Trim(inner))
    ensures Trim(DropCloseFence(DropOpenFence("```" + TrimEnd(inner)))) == Trim(inner)
  {
    var z := "```" + TrimEnd(inner);
    assert StartsWith(z, "```") && z[3..] == TrimEnd(inner);
    TrimCommute(inner);
    assert DropOpenFence(z) == Trim(inner);
    StripTrimmedUnfenced(Trim(inner));
  }

  /** A reply whose trimmed text carries no fence at either end is only trimmed. */
  lemma StripUnfenced(text: string)
    requires Unfenced(Trim(text))
    ensures StripFences(text) == Trim(text)
  {
    var t := Trim(text);
    TrimEndOfNoTrailingSpace(t);
    TrimOfTrimmed(t);
    StripTrimmedUnfenced(t);
  }

  // ---------------------------------------------------------------------------
  // The adapter

  /**
   * `analyzeStatements`: the request is one block per PDF or image file in order
   * followed by the prompt; an API failure, a reply without text, and text that
   * does not parse after fence stripping each become the source's error message.
   */
  method AnalyzeStatements(
    files: seq<FileInput>,
    ask: seq<ContentBlock> -> Result<seq<ReplyBlock>>,
    parse: string -> Option<AnalysisResult>)
    returns (content: seq<ContentBlock>, r: Result<AnalysisResult>)
    ensures content == Blocks(files) + [Prompt]
    ensures ask(content).Err? ==> r == Err(AiErrorPrefix + Or(ask(content).message, AiErrorFallback))
    ensures ask(content).Ok? && FirstText(ask(content).value).None? ==> r == Err(NoTextError)
    ensures ask(content).Ok? && FirstText(ask(content).value).Some? ==>
      var jsonText := StripFences(FirstText(ask(content).value).value);
      r == (match parse(jsonText) case Some(a) => Ok(a) case None => Err(ParseError))
  {
    content := [];
    var i := 0;
    while i < |files|
      invariant 0 <= i <= |files|
      invariant content == Blocks(files[..i])
    {
      BlocksSnoc(files, i);
      var f := files[i];
      if f.fileType == "application/pdf" {
        content := content + [Document(f.filePath)];
      } else if StartsWith(f.fileType, "image/") {
        content := content + [Image(f.fileType, f.filePath)];
      }
      i := i + 1;
    }
    assert files[..i] == files;
    content := content + [Prompt];

    var response := ask(content);
    if response.Err? {
      r := Err(AiErrorPrefix + Or(response.message, AiErrorFallback));
      return;
    }
    var textContent := FirstText(response.value);
    if textContent.None? {
      r := Err(NoTextError);
      return;
    }
    var jsonText := Trim(textContent.value);
    jsonText := Trim(DropCloseFence(DropJsonFence(jsonText)));
    jsonText := Trim(DropCloseFence(DropOpenFence(jsonText)));
    var analysis := parse(jsonText);
    if analysis.None? {
      r := Err(ParseError);
    } else {
      r := Ok(analysis.value);
    }
  }

  lemma {:induction false} BlocksAppend(a: seq<FileInput>, b: seq<FileInput>)
    ensures Blocks(a + b) == Blocks(a) + Blocks(b)
  {
    if a == [] {
      assert a + b == b;
    } else {
      assert (a + b)[0] == a[0] && (a + b)[1..] == a[1..] + b;
      BlocksAppend(a[1..], b);
    }
  }

  lemma BlocksSnoc(files: seq<FileInput>, i: nat)
    requires i < |files|
    ensures Blocks(files[..i + 1]) ==
      Blocks(files[..i]) + (match BlockFor(files[i]) case Some(b) => [b] case None => [])
  {
    assert files[..i + 1] == files[..i] + [files[i]];
    BlocksAppend(files[..i], [files[i]]);
  }

  /** When every file is a PDF or an image, each file yields exactly its own block, in order. */
  lemma {:induction false} BlocksOfClassified(files: seq<FileInput>)
    requires forall i :: 0 <= i < |files| ==> BlockFor(files[i]).Some?
    ensures |Blocks(files)| == |files|
    ensures forall i :: 0 <= i < |files| ==> Blocks(files)[i] == BlockFor(files[i]).value
  {
    if files != [] {
      assert forall i :: 0 <= i < |files[1..]| ==> files[1..][i] == files[i + 1];
      BlocksOfClassified(files[1..]);
    }
  }
}
