/** `synthesis_response` (utils/retrieval.py): the retrieved nodes are split
    by content type into a text context and a list of image parts, and the
    model is asked with a system prompt holding the query and that context. */
module Retrieval {
  import opened Wrappers
  import opened Text
  import opened RequestModels

  /** A retrieved node: its text and its metadata dictionary (only the string
      entries "content_type" and "image_path" are read here). */
  datatype RetrievedNode = RetrievedNode(text: string, metadata: map<string, string>)

  /** The answer when nothing was retrieved. */
  const NoAnswer := "未找到相关答案"

  /** SYSTEM_PROMPT around its `{query}` and `{text_context}` fields. */
  const PromptHead := "You are a multimodal reasoning assistant.\nYou are given the following inputs:\n\n1. User query: "
  const PromptMid := "\n2. Text context: "
  const PromptTail :=
    "\n\nYour task is to:\n"
    + "- Always start by understanding the user query.\n"
    + "- If images are uploaded, analyze both the text and image contexts together.\n"
    + "- If images are not uploaded or is empty, analyze only the text context.\n"
    + "- Integrate evidence from the available contexts when forming your answer.\n"
    + "- If information is missing, uncertain, or contradictory, explicitly state it.\n"
    + "- Provide a clear, well-structured response that directly addresses the query.\n"
    + "- Use reasoning that is faithful to the provided contexts; do not hallucinate unsupported details.\n"

  /** `SYSTEM_PROMPT.format(query=query, text_context=textContext)`: the
      substituted values are not themselves re-formatted. */
  function SystemPrompt(query: string, textContext: string): (r: string)
    ensures |r| == |PromptHead| + |query| + |PromptMid| + |textContext| + |PromptTail|
    ensures r[..|PromptHead|] == PromptHead
    ensures r[|PromptHead|..|PromptHead| + |query|] == query
    ensures r[|PromptHead| + |query| + |PromptMid|..|r| - |PromptTail|] == textContext
    ensures r[|r| - |PromptTail|..] == PromptTail
  {
    FieldsAt(PromptHead, query, PromptMid, textContext, PromptTail);
    PromptHead + query + PromptMid + textContext + PromptTail
  }

  lemma FieldsAt(a: string, b: string, c: string, d: string, e: string)
    ensures var r := a + b + c + d + e;
      && |r| == |a| + |b| + |c| + |d| + |e|
      && r[..|a|] == a && r[|a|..|a| + |b|] == b
      && r[|a| + |b| + |c|..|r| - |e|] == d && r[|r| - |e|..] == e
  {
    var r := a + b + c + d + e;
    assert r == a + (b + (c + (d + e)));
  }

  /** The content types that go into the text context. */
  predicate IsTextKind(kind: string)
  {
    kind == "text" || kind == "equation" || kind == "table"
  }

  /** The URL an image is sent as. */
  function DataUrl(imageB64: string): string
  {
    "data:image/jpeg;base64," + imageB64
  }

  /** What the loop has built so far: `text_context` and the parts of
      `user_content["content"]`. */
  datatype Context = Context(textContext: string, parts: seq<Part>)

  /** The loop over the remaining nodes from context `ctx`; a missing key or
      an image that cannot be opened raises. */
  function Gather(ctx: Context, nodes: seq<RetrievedNode>, readImage: string -> Option<string>): Result<Context>
    decreases |nodes|
  {
    if nodes == [] then Ok(ctx)
    else
      var node := nodes[0];
      if "content_type" !in node.metadata then Err(KeyError("content_type"))
      else if IsTextKind(node.metadata["content_type"]) then
        Gather(ctx.(textContext := ctx.textContext + node.text + "\n"), nodes[1..], readImage)
      else if node.metadata["content_type"] == "image" then
        if "image_path" !in node.metadata then Err(KeyError("image_path"))
        else match readImage(node.metadata["image_path"])
          case None => Err(IOError(node.metadata["image_path"]))
          case Some(b64) => Gather(ctx.(parts := ctx.parts + [ImageUrlPart(DataUrl(b64))]), nodes[1..], readImage)
      else Gather(ctx, nodes[1..], readImage)
  }

  /** The messages sent to the model for the gathered context. */
  function SystemMessage(query: string, ctx: Context): Message
  {
    Message("system", [TextPart(SystemPrompt(query, ctx.textContext))])
  }

  /** synthesis_response: the answer, or the exception it raises. */
  function Synthesize(query: string, nodes: seq<RetrievedNode>, readImage: string -> Option<string>, vlm: VlmCall): Result<string>
  {
    if |nodes| < 1 then Ok(NoAnswer)
    else match Gather(Context("", [TextPart(query)]), nodes, readImage)
      case Err(e) => Err(e)
      case Ok(ctx) => vlm(SystemMessage(query, ctx), Message("user", ctx.parts))
  }

  /** The loop of synthesis_response, accumulating `text_context` and
      appending image parts after the query part. */
  method SynthesisResponse(query: string, nodes: seq<RetrievedNode>, readImage: string -> Option<string>, vlm: VlmCall)
    returns (response: Result<string>)
    ensures response == Synthesize(query, nodes, readImage, vlm)
    ensures nodes == [] ==> response == Ok(NoAnswer)
  {
    if |nodes| < 1 {
      return Ok(NoAnswer);
    }
    var textContext := "";
    var parts := [TextPart(query)];
    var i := 0;
    assert nodes[0..] == nodes;
    while i < |nodes|
      invariant 0 <= i <= |nodes|
      invariant Gather(Context("", [TextPart(query)]), nodes, readImage) == Gather(Context(textContext, parts), nodes[i..], readImage)
    {
      var node := nodes[i];
      assert nodes[i..][1..] == nodes[i + 1..];
      if "content_type" !in node.metadata {
        return Err(KeyError("content_type"));
      }
      var kind := node.metadata["content_type"];
      if kind == "text" || kind == "equation" || kind == "table" {
        textContext := textContext + node.text + "\n";
      } else if kind == "image" {
        if "image_path" !in node.metadata {
          return Err(KeyError("image_path"));
        }
        var imagePath := node.metadata["image_path"];
        var image := readImage(imagePath);
        if image.None? {
          return Err(IOError(imagePath));
        }
        parts := parts + [ImageUrlPart(DataUrl(image.value))];
      }
      i := i + 1;
    }
    var systemContent := SystemMessage(query, Context(textContext, parts));
    response := vlm(systemContent, Message("user", parts));
  }

  // ---------------------------------------------------------------------------
  // What the loop builds
  // ---------------------------------------------------------------------------

  /** `node.text + "\n"` for the text, equation and table nodes, in order. */
  function TextPieces(nodes: seq<RetrievedNode>): seq<string>
  {
    if nodes == [] then []
    else
      var n := nodes[0];
      (if "content_type" in n.metadata && IsTextKind(n.metadata["content_type"]) then [n.text + "\n"] else [])
      + TextPieces(nodes[1..])
  }

  /** The image nodes, in order. */
  function ImageNodes(nodes: seq<RetrievedNode>): seq<RetrievedNode>
  {
    if nodes == [] then []
    else
      var n := nodes[0];
      (if "content_type" in n.metadata && n.metadata["content_type"] == "image" then [n] else [])
      + ImageNodes(nodes[1..])
  }

  /** The loop completes exactly when every node has a content type and every
      image node names an image that can be opened. */
  ghost predicate Gatherable(nodes: seq<RetrievedNode>, readImage: string -> Option<string>)
  {
    forall n | n in nodes ::
      && "content_type" in n.metadata
      && (n.metadata["content_type"] == "image" ==>
            "image_path" in n.metadata && readImage(n.metadata["image_path"]).Some?)
  }

  lemma {:induction false} GatherOkIff(ctx: Context, nodes: seq<RetrievedNode>, readImage: string -> Option<string>)
    ensures Gather(ctx, nodes, readImage).Ok? <==> Gatherable(nodes, readImage)
    decreases |nodes|
  {
    if nodes != [] {
      var n := nodes[0];
      assert forall m :: m in nodes <==> m == n || m in nodes[1..];
      if "content_type" in n.metadata {
        var kind := n.metadata["content_type"];
        if IsTextKind(kind) {
          GatherOkIff(ctx.(textContext := ctx.textContext + n.text + "\n"), nodes[1..], readImage);
        } else if kind == "image" {
          if "image_path" in n.metadata && readImage(n.metadata["image_path"]).Some? {
            var b64 := readImage(n.metadata["image_path"]).value;
            GatherOkIff(ctx.(parts := ctx.parts + [ImageUrlPart(DataUrl(b64))]), nodes[1..], readImage);
          }
        } else {
          GatherOkIff(ctx, nodes[1..], readImage);
        }
      }
    }
  }

  /** The text context is the concatenation, in retrieval order, of
      `text + "\n"` over exactly the text, equation and table nodes. */
  lemma {:induction false} GatherTextContext(ctx: Context, nodes: seq<RetrievedNode>, readImage: string -> Option<string>)
    requires Gather(ctx, nodes, readImage).Ok?
    ensures Gather(ctx, nodes, readImage).value.textContext == ctx.textContext + Concat(TextPieces(nodes))
    decreases |nodes|
  {
    if nodes != [] {
      var n := nodes[0];
      var kind := n.metadata["content_type"];
      if IsTextKind(kind) {
        GatherTextContext(ctx.(textContext := ctx.textContext + n.text + "\n"), nodes[1..], readImage);
        assert TextPieces(nodes) == [n.text + "\n"] + TextPieces(nodes[1..]);
        assert ctx.textContext + n.text + "\n" + Concat(TextPieces(nodes[1..]))
            == ctx.textContext + Concat(TextPieces(nodes));
      } else if kind == "image" {
        var b64 := readImage(n.metadata["image_path"]).value;
        GatherTextContext(ctx.(parts := ctx.parts + [ImageUrlPart(DataUrl(b64))]), nodes[1..], readImage);
        assert TextPieces(nodes) == TextPieces(nodes[1..]);
      } else {
        GatherTextContext(ctx, nodes[1..], readImage);
        assert TextPieces(nodes) == TextPieces(nodes[1..]);
      }
    }
  }

  /** `parts` is `before` followed by one image part per node of `images`,
      in order, each carrying that node's image. */
  ghost predicate PartsFollow(before: seq<Part>, parts: seq<Part>, images: seq<RetrievedNode>, readImage: string -> Option<string>)
  {
    && |parts| == |before| + |images|
    && parts[..|before|] == before
    && forall i :: 0 <= i < |images| ==>
         && "image_path" in images[i].metadata
         && readImage(images[i].metadata["image_path"]).Some?
         && parts[|before| + i] == ImageUrlPart(DataUrl(readImage(images[i].metadata["image_path"]).value))
  }

  lemma PartsFollowCons(before: seq<Part>, parts: seq<Part>, n: RetrievedNode, images: seq<RetrievedNode>, readImage: string -> Option<string>)
    requires "image_path" in n.metadata && readImage(n.metadata["image_path"]).Some?
    requires PartsFollow(before + [ImageUrlPart(DataUrl(readImage(n.metadata["image_path"]).value))], parts, images, readImage)
    ensures PartsFollow(before, parts, [n] + images, readImage)
  {
    var next := before + [ImageUrlPart(DataUrl(readImage(n.metadata["image_path"]).value))];
    var all := [n] + images;
    assert parts[..|before|] == parts[..|next|][..|before|];
    forall i | 0 <= i < |all|
      ensures && "image_path" in all[i].metadata
         && readImage(all[i].metadata["image_path"]).Some?
         && parts[|before| + i] == ImageUrlPart(DataUrl(readImage(all[i].metadata["image_path"]).value))
    {
      if i == 0 {
        assert parts[|before|] == parts[..|next|][|before|];
      } else {
        assert all[i] == images[i - 1];
      }
    }
  }

  /** The parts are the ones already there followed by one image part per
      image node, in retrieval order, each carrying that node's image. */
  lemma {:induction false} GatherParts(ctx: Context, nodes: seq<RetrievedNode>, readImage: string -> Option<string>)
    requires Gather(ctx, nodes, readImage).Ok?
    ensures PartsFollow(ctx.parts, Gather(ctx, nodes, readImage).value.parts, ImageNodes(nodes), readImage)
    decreases |nodes|
  {
    var parts := Gather(ctx, nodes, readImage).value.parts;
    if nodes == [] {
      assert parts[..|ctx.parts|] == ctx.parts;
    } else {
      var n := nodes[0];
      var kind := n.metadata["content_type"];
      if IsTextKind(kind) {
        GatherParts(ctx.(textContext := ctx.textContext + n.text + "\n"), nodes[1..], readImage);
        assert ImageNodes(nodes) == ImageNodes(nodes[1..]);
      } else if kind == "image" {
        var b64 := readImage(n.metadata["image_path"]).value;
        GatherParts(ctx.(parts := ctx.parts + [ImageUrlPart(DataUrl(b64))]), nodes[1..], readImage);
        assert ImageNodes(nodes) == [n] + ImageNodes(nodes[1..]);
        PartsFollowCons(ctx.parts, parts, n, ImageNodes(nodes[1..]), readImage);
      } else {
        GatherParts(ctx, nodes[1..], readImage);
        assert ImageNodes(nodes) == ImageNodes(nodes[1..]);
      }
    }
  }

  /** A node whose content type is neither text, equation, table nor image
      changes nothing, wherever it stands. */
  lemma {:induction false} OtherKindIgnored(ctx: Context, before: seq<RetrievedNode>, n: RetrievedNode, after: seq<RetrievedNode>, readImage: string -> Option<string>)
    requires "content_type" in n.metadata
    requires !IsTextKind(n.metadata["content_type"]) && n.metadata["content_type"] != "image"
    ensures Gather(ctx, before + [n] + after, readImage) == Gather(ctx, before + after, readImage)
    decreases |before|
  {
    if before == [] {
      assert before + [n] + after == [n] + after;
      assert ([n] + after)[1..] == after;
      assert before + after == after;
    } else {
      assert (before + [n] + after)[1..] == before[1..] + [n] + after;
      assert (before + after)[1..] == before[1..] + after;
      var m := before[0];
      if "content_type" in m.metadata {
        var kind := m.metadata["content_type"];
        if IsTextKind(kind) {
          OtherKindIgnored(ctx.(textContext := ctx.textContext + m.text + "\n"), before[1..], n, after, readImage);
        } else if kind == "image" && "image_path" in m.metadata && readImage(m.metadata["image_path"]).Some? {
          var b64 := readImage(m.metadata["image_path"]).value;
          OtherKindIgnored(ctx.(parts := ctx.parts + [ImageUrlPart(DataUrl(b64))]), before[1..], n, after, readImage);
        } else if kind != "image" {
          OtherKindIgnored(ctx, before[1..], n, after, readImage);
        }
      }
    }
  }

  /** What synthesis_response sends, when the nodes are gathered: the query
      first, then the images in retrieval order, and a system prompt holding
      the query and the text context. */
  lemma SynthesizeSends(query: string, nodes: seq<RetrievedNode>, readImage: string -> Option<string>, model: ChatModel)
    requires nodes != [] && Gatherable(nodes, readImage)
    ensures Gather(Context("", [TextPart(query)]), nodes, readImage).Ok?
    ensures var ctx := Gather(Context("", [TextPart(query)]), nodes, readImage).value;
      && |ctx.parts| >= 1 && ctx.parts[0] == TextPart(query)
      && PartsFollow([TextPart(query)], ctx.parts, ImageNodes(nodes), readImage)
      && ctx.textContext == Concat(TextPieces(nodes))
      && Synthesize(query, nodes, readImage, IntendedCall(model))
           == Ok(model([Message("system", [TextPart(SystemPrompt(query, Concat(TextPieces(nodes))))]),
                        Message("user", ctx.parts)]))
  {
    var ctx0 := Context("", [TextPart(query)]);
    GatherOkIff(ctx0, nodes, readImage);
    GatherTextContext(ctx0, nodes, readImage);
    GatherParts(ctx0, nodes, readImage);
    var ctx := Gather(ctx0, nodes, readImage).value;
    assert ctx.parts[0] == ctx.parts[..1][0];
  }

  /** As written, a non-empty retrieval never yields an answer: the loop
      raises, or the call `request_vlm(system_content=...)` raises TypeError. */
  lemma AnswerFailsAsWritten(query: string, nodes: seq<RetrievedNode>, readImage: string -> Option<string>, model: ChatModel)
    requires nodes != []
    ensures Synthesize(query, nodes, readImage, AsWrittenCall(model)).Err?
  {
  }
}
