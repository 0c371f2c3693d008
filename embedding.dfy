/** `create_nodes` (utils/embedding.py): every parsed-result directory's
    content list becomes a list of nodes, one per text, equation, table or
    image item; a file whose processing raises is dropped whole. */
module Embedding {
  import opened Wrappers
  import opened Text
  import opened TableSpec
  import opened RequestModels

  /** One entry of `<name>_content_list.json`. `kind` is its "type" value (a
      missing key behaves like any unrecognised tag); `imgPath`,
      `tableCaption` and `imageCaption` are None when the key is absent, and
      `tableBody` is the HTML of "table_body" as the table parser sees it. */
  datatype ContentItem = ContentItem(
    kind: string,
    text: string,
    pageIdx: Option<int>,
    imgPath: Option<string>,
    tableBody: HtmlTable,
    tableCaption: Option<seq<string>>,
    imageCaption: Option<seq<string>>)

  /** A parsed-result directory: its path, the name of its parent directory
      (the document's stem) and the content list read from it, None when the
      file cannot be opened or does not hold a JSON list. */
  datatype ParsedDir = ParsedDir(path: string, parentName: string, contentList: Option<seq<ContentItem>>)

  /** The metadata dictionary of a node. */
  datatype Metadata = Metadata(contentType: string, pageIdx: Option<int>, sourceFile: string, imagePath: string)

  /** A TextNode: its text and its metadata. */
  datatype Node = Node(text: string, metadata: Metadata)

  /** A file reader: the base64 text of the file at a path, None when it cannot be opened. */
  type ImageReader = string -> Option<string>

  /** `(Path(dir) / rel).as_posix()` for POSIX paths: an absolute `rel`
      replaces `dir`, an empty one leaves `dir`. */
  function JoinPath(dir: string, rel: string): string
  {
    if rel == "" then dir
    else if rel[0] == '/' then rel
    else dir + "/" + rel
  }

  /** The loop `caption_text = caption_text + caption + "\n"` over a caption list. */
  function CaptionBlock(captions: seq<string>): string
  {
    if captions == [] then ""
    else CaptionBlock(captions[..|captions| - 1]) + captions[|captions| - 1] + "\n"
  }

  /** The captions block is the captions joined by newlines, with a final newline. */
  lemma {:induction false} CaptionBlockIsJoin(captions: seq<string>)
    ensures CaptionBlock(captions) == if captions == [] then "" else Join("\n", captions) + "\n"
  {
    if |captions| == 1 {
      assert captions[..0] == [];
    } else if |captions| > 1 {
      var init := captions[..|captions| - 1];
      CaptionBlockIsJoin(init);
      JoinSnoc(init, captions[|captions| - 1]);
      assert init + [captions[|captions| - 1]] == captions;
    }
  }

  lemma {:induction false} JoinSnoc(parts: seq<string>, last: string)
    requires parts != []
    ensures Join("\n", parts + [last]) == Join("\n", parts) + "\n" + last
  {
    if |parts| == 1 {
      assert parts + [last] == [parts[0], last];
      assert (parts + [last])[1..] == [last];
    } else {
      assert (parts + [last])[1..] == parts[1..] + [last];
      JoinSnoc(parts[1..], last);
    }
  }

  /** The user message asking the model to describe an image. */
  function DescribeRequest(imageB64: string, caption: string): Message
  {
    Message("user", [
      ImageUrlPart("data:image/jpeg;base64," + imageB64),
      TextPart("The caption of the image is:" + caption + ", please describe the uploaded image in detail.")])
  }

  /** The tags create_nodes turns into nodes. */
  predicate IsNodeKind(kind: string)
  {
    kind == "text" || kind == "equation" || kind == "table" || kind == "image"
  }

  /** The node made of `item`: the item's own text for a text or equation
      item, and metadata holding its tag and page, the document's name +
      ".pdf", and its image path ("" for text). */
  ghost predicate NodeOf(dir: ParsedDir, item: ContentItem, node: Node)
  {
    var m := node.metadata;
    && (item.kind == "text" || item.kind == "equation" ==> node.text == item.text)
    && m.contentType == item.kind
    && m.pageIdx == item.pageIdx
    && m.sourceFile == dir.parentName + ".pdf"
    && (item.kind == "text" ==> m.imagePath == "")
    && (item.kind != "text" ==> item.imgPath.Some? && m.imagePath == JoinPath(dir.path, item.imgPath.value))
  }

  /** `Path / None` and `for caption in None` both raise TypeError. */
  const MissingKey := TypeError("unsupported operand or iteration over None")

  /** What one content item contributes: Ok(Some(node)) for the four tags,
      Ok(None) for any other tag, Err where its branch raises. */
  function ItemToNode(dir: ParsedDir, item: ContentItem, readImage: ImageReader, vlm: VlmCall): (r: Result<Option<Node>>)
    ensures r.Ok? ==> (r.value.Some? <==> IsNodeKind(item.kind))
    ensures r.Err? ==> IsNodeKind(item.kind) && item.kind != "text"
    ensures r.Ok? && r.value.Some? ==> NodeOf(dir, item, r.value.value)
  {
    var source := dir.parentName + ".pdf";
    if item.kind == "text" then
      Ok(Some(Node(item.text, Metadata("text", item.pageIdx, source, ""))))
    else if item.kind == "equation" then
      if item.imgPath.None? then Err(MissingKey)
      else Ok(Some(Node(item.text, Metadata("equation", item.pageIdx, source, JoinPath(dir.path, item.imgPath.value)))))
    else if item.kind == "table" then
      if item.tableCaption.None? || item.imgPath.None? then Err(MissingKey)
      else
        var text := TableToMarkdown(item.tableBody) + "\n" + CaptionBlock(item.tableCaption.value);
        Ok(Some(Node(text, Metadata("table", item.pageIdx, source, JoinPath(dir.path, item.imgPath.value)))))
    else if item.kind == "image" then
      if item.imageCaption.None? || item.imgPath.None? then Err(MissingKey)
      else
        var caption := CaptionBlock(item.imageCaption.value);
        var fullPath := JoinPath(dir.path, item.imgPath.value);
        match readImage(fullPath)
        case None => Err(IOError(fullPath))
        case Some(b64) =>
          match vlm(HelpfulAssistant, DescribeRequest(b64, caption))
          case Err(e) => Err(e)
          case Ok(description) =>
            Ok(Some(Node(caption + "\n" + description, Metadata("image", item.pageIdx, source, fullPath))))
    else Ok(None)
  }

  /** The nodes of the remaining items, or the first exception among them. */
  function ItemsToNodes(dir: ParsedDir, items: seq<ContentItem>, readImage: ImageReader, vlm: VlmCall): Result<seq<Node>>
    decreases |items|
  {
    if items == [] then Ok([])
    else match ItemToNode(dir, items[0], readImage, vlm)
      case Err(e) => Err(e)
      case Ok(node) => PrependNodes(if node.Some? then [node.value] else [], ItemsToNodes(dir, items[1..], readImage, vlm))
  }

  /** The node list of one directory, or the exception that drops it. */
  function FileNodes(dir: ParsedDir, readImage: ImageReader, vlm: VlmCall): Result<seq<Node>>
  {
    match dir.contentList
    case None => Err(IOError(dir.path + "/" + dir.parentName + "_content_list.json"))
    case Some(items) => ItemsToNodes(dir, items, readImage, vlm)
  }

  /** What processing each directory comes to: its node list or the exception that drops it. */
  function Outcomes(dirs: seq<ParsedDir>, readImage: ImageReader, vlm: VlmCall): (r: seq<Result<seq<Node>>>)
    ensures |r| == |dirs| && forall d :: 0 <= d < |dirs| ==> r[d] == FileNodes(dirs[d], readImage, vlm)
  {
    seq(|dirs|, d requires 0 <= d < |dirs| => FileNodes(dirs[d], readImage, vlm))
  }

  /** The node lists of the outcomes that did not raise, in order. */
  function Kept(outcomes: seq<Result<seq<Node>>>): (r: seq<seq<Node>>)
    ensures |r| <= |outcomes|
  {
    if outcomes == [] then []
    else (if outcomes[0].Ok? then [outcomes[0].value] else []) + Kept(outcomes[1..])
  }

  /** `nodes_list`. */
  function NodesOfFiles(dirs: seq<ParsedDir>, readImage: ImageReader, vlm: VlmCall): seq<seq<Node>>
  {
    Kept(Outcomes(dirs, readImage, vlm))
  }

  /** `acc` followed by the nodes still to come, or the exception among them. */
  function PrependNodes(acc: seq<Node>, rest: Result<seq<Node>>): Result<seq<Node>>
  {
    match rest
    case Err(e) => Err(e)
    case Ok(r) => Ok(acc + r)
  }

  lemma PrependNodesTwice(acc: seq<Node>, more: seq<Node>, rest: Result<seq<Node>>)
    ensures PrependNodes(acc, PrependNodes(more, rest)) == PrependNodes(acc + more, rest)
  {
    if rest.Ok? {
      assert acc + (more + rest.value) == (acc + more) + rest.value;
    }
  }

  /** The body of the `try` in create_nodes for one directory: load its
      content list and turn every item into a node. `ok` is false where an
      exception abandons the file. */
  method ProcessFile(dir: ParsedDir, readImage: ImageReader, vlm: VlmCall) returns (ok: bool, nodes: seq<Node>)
    ensures ok == FileNodes(dir, readImage, vlm).Ok?
    ensures ok ==> nodes == FileNodes(dir, readImage, vlm).value
  {
    nodes := [];
    if dir.contentList.None? {
      return false, [];
    }
    var items := dir.contentList.value;
    var k := 0;
    assert items[0..] == items;
    if ItemsToNodes(dir, items, readImage, vlm).Ok? {
      assert [] + ItemsToNodes(dir, items, readImage, vlm).value == ItemsToNodes(dir, items, readImage, vlm).value;
    }
    while k < |items|
      invariant 0 <= k <= |items|
      invariant ItemsToNodes(dir, items, readImage, vlm) == PrependNodes(nodes, ItemsToNodes(dir, items[k..], readImage, vlm))
    {
      var outcome := ItemToNode(dir, items[k], readImage, vlm);
      ItemStep(dir, items, k, nodes, readImage, vlm);
      if outcome.Err? {
        return false, nodes;
      }
      if outcome.value.Some? {
        nodes := nodes + [outcome.value.value];
      } else {
        assert nodes + [] == nodes;
      }
      k := k + 1;
    }
    assert items[k..] == [];
    assert nodes + [] == nodes;
    ok := true;
  }

  /** One iteration of the loop over the items, stated on what is still to come. */
  lemma ItemStep(dir: ParsedDir, items: seq<ContentItem>, k: nat, nodes: seq<Node>, readImage: ImageReader, vlm: VlmCall)
    requires k < |items|
    ensures var outcome := ItemToNode(dir, items[k], readImage, vlm);
      var rest := ItemsToNodes(dir, items[k + 1..], readImage, vlm);
      && (outcome.Err? ==> ItemsToNodes(dir, items[k..], readImage, vlm).Err?)
      && (outcome.Ok? ==>
            PrependNodes(nodes, ItemsToNodes(dir, items[k..], readImage, vlm))
            == PrependNodes(nodes + if outcome.value.Some? then [outcome.value.value] else [], rest))
  {
    var outcome := ItemToNode(dir, items[k], readImage, vlm);
    var rest := ItemsToNodes(dir, items[k + 1..], readImage, vlm);
    assert items[k..][1..] == items[k + 1..];
    if outcome.Ok? {
      PrependNodesTwice(nodes, if outcome.value.Some? then [outcome.value.value] else [], rest);
    }
  }

  /** The loop of create_nodes over the directories: the node list of every
      directory whose `try` completes is appended to `nodes_list`. */
  method CreateNodes(dirs: seq<ParsedDir>, readImage: ImageReader, vlm: VlmCall) returns (nodesList: seq<seq<Node>>)
    ensures nodesList == NodesOfFiles(dirs, readImage, vlm)
  {
    ghost var outcomes := Outcomes(dirs, readImage, vlm);
    nodesList := [];
    var d := 0;
    assert outcomes[0..] == outcomes;
    while d < |dirs|
      invariant 0 <= d <= |dirs|
      invariant nodesList + Kept(outcomes[d..]) == Kept(outcomes)
    {
      assert outcomes[d..][1..] == outcomes[d + 1..];
      var ok, nodes := ProcessFile(dirs[d], readImage, vlm);
      if ok {
        assert Kept(outcomes[d..]) == [nodes] + Kept(outcomes[d + 1..]);
        assert nodesList + Kept(outcomes[d..]) == (nodesList + [nodes]) + Kept(outcomes[d + 1..]);
        nodesList := nodesList + [nodes];
      } else {
        assert Kept(outcomes[d..]) == Kept(outcomes[d + 1..]);
      }
      d := d + 1;
    }
    assert outcomes[d..] == [];
    assert nodesList + [] == nodesList;
  }

  // ---------------------------------------------------------------------------
  // What create_nodes guarantees
  // ---------------------------------------------------------------------------

  /** The items create_nodes makes nodes of, in order. */
  function NodeItems(items: seq<ContentItem>): seq<ContentItem>
  {
    if items == [] then []
    else (if IsNodeKind(items[0].kind) then [items[0]] else []) + NodeItems(items[1..])
  }

  /** A file that is kept holds exactly one node per text, equation, table or
      image item, in input order, each carrying its item's tag and page, the
      document's name + ".pdf", and its image path ("" for text). */
  lemma {:induction false} NodesFollowItems(dir: ParsedDir, items: seq<ContentItem>, readImage: ImageReader, vlm: VlmCall)
    requires ItemsToNodes(dir, items, readImage, vlm).Ok?
    ensures var nodes := ItemsToNodes(dir, items, readImage, vlm).value;
      && |nodes| == |NodeItems(items)|
      && forall i :: 0 <= i < |nodes| ==> NodeOf(dir, NodeItems(items)[i], nodes[i])
    decreases |items|
  {
    if items != [] {
      var rest := ItemsToNodes(dir, items[1..], readImage, vlm);
      var node := ItemToNode(dir, items[0], readImage, vlm);
      assert node.Ok? && rest.Ok?;
      NodesFollowItems(dir, items[1..], readImage, vlm);
      if node.value.Some? {
        ConsFollows(dir, items[0], node.value.value, NodeItems(items[1..]), rest.value);
      }
    }
  }

  /** A node made of `item` goes in front of the nodes of the later items. */
  lemma ConsFollows(dir: ParsedDir, item: ContentItem, node: Node, later: seq<ContentItem>, nodes: seq<Node>)
    requires NodeOf(dir, item, node)
    requires |nodes| == |later| && forall i :: 0 <= i < |nodes| ==> NodeOf(dir, later[i], nodes[i])
    ensures forall i :: 0 <= i < |nodes| + 1 ==> NodeOf(dir, ([item] + later)[i], ([node] + nodes)[i])
  {
    forall i | 0 <= i < |nodes| + 1
      ensures NodeOf(dir, ([item] + later)[i], ([node] + nodes)[i])
    {
      if i > 0 {
        assert ([item] + later)[i] == later[i - 1] && ([node] + nodes)[i] == nodes[i - 1];
      }
    }
  }

  /** A file's list is lost exactly when one of its items raises: there are
      no partial lists. */
  lemma {:induction false} FileFailsIffItemFails(dir: ParsedDir, items: seq<ContentItem>, readImage: ImageReader, vlm: VlmCall)
    ensures ItemsToNodes(dir, items, readImage, vlm).Err? <==>
      exists i :: 0 <= i < |items| && ItemToNode(dir, items[i], readImage, vlm).Err?
    decreases |items|
  {
    if items != [] {
      FileFailsIffItemFails(dir, items[1..], readImage, vlm);
      if ItemsToNodes(dir, items[1..], readImage, vlm).Err? {
        var i :| 0 <= i < |items[1..]| && ItemToNode(dir, items[1..][i], readImage, vlm).Err?;
        assert ItemToNode(dir, items[i + 1], readImage, vlm).Err?;
      }
      if exists i :: 0 <= i < |items| && ItemToNode(dir, items[i], readImage, vlm).Err? {
        var i :| 0 <= i < |items| && ItemToNode(dir, items[i], readImage, vlm).Err?;
        if i > 0 {
          assert items[1..][i - 1] == items[i];
        }
      }
    }
  }

  /** Every index moved one place on. */
  function Shift(s: seq<nat>): (r: seq<nat>)
    ensures |r| == |s| && forall i :: 0 <= i < |s| ==> r[i] == s[i] + 1
  {
    if s == [] then [] else [s[0] + 1] + Shift(s[1..])
  }

  /** Entry `i` of `kept` is the node list of outcome `origin[i]`, which did not raise. */
  ghost predicate ComeFrom(outcomes: seq<Result<seq<Node>>>, kept: seq<seq<Node>>, origin: seq<nat>)
  {
    && |origin| == |kept|
    && forall i :: 0 <= i < |origin| ==>
         origin[i] < |outcomes| && outcomes[origin[i]].Ok? && kept[i] == outcomes[origin[i]].value
  }

  ghost predicate Increasing(origin: seq<nat>)
  {
    forall i, j :: 0 <= i < j < |origin| ==> origin[i] < origin[j]
  }

  /** Every outcome that did not raise, from index `from` on, is named in `origin`. */
  ghost predicate CoversFrom(outcomes: seq<Result<seq<Node>>>, origin: seq<nat>, from: nat)
  {
    forall d :: from <= d < |outcomes| && outcomes[d].Ok? ==> d in origin
  }

  /** The origins of the later outcomes, seen from the whole list. */
  lemma ShiftComeFrom(outcomes: seq<Result<seq<Node>>>, later: seq<seq<Node>>, rest: seq<nat>)
    requires outcomes != [] && ComeFrom(outcomes[1..], later, rest)
    ensures ComeFrom(outcomes, later, Shift(rest))
  {
    var shifted := Shift(rest);
    forall i | 0 <= i < |shifted|
      ensures shifted[i] < |outcomes| && outcomes[shifted[i]].Ok? && later[i] == outcomes[shifted[i]].value
    {
      assert outcomes[shifted[i]] == outcomes[1..][rest[i]];
    }
  }

  lemma ShiftIncreasing(rest: seq<nat>)
    requires Increasing(rest)
    ensures Increasing(Shift(rest))
    ensures forall i :: 0 <= i < |rest| ==> Shift(rest)[i] >= 1
  {
    var shifted := Shift(rest);
    forall i, j | 0 <= i < j < |shifted|
      ensures shifted[i] < shifted[j]
    {
      assert rest[i] < rest[j];
    }
  }

  lemma ShiftCovers(outcomes: seq<Result<seq<Node>>>, rest: seq<nat>)
    requires outcomes != [] && CoversFrom(outcomes[1..], rest, 0)
    ensures CoversFrom(outcomes, Shift(rest), 1)
  {
    var shifted := Shift(rest);
    forall d | 1 <= d < |outcomes| && outcomes[d].Ok?
      ensures d in shifted
    {
      assert outcomes[1..][d - 1] == outcomes[d];
      var i :| 0 <= i < |rest| && rest[i] == d - 1;
      assert shifted[i] == d;
    }
  }

  /** A kept first outcome goes in front. */
  lemma ConsOrigins(outcomes: seq<Result<seq<Node>>>, later: seq<seq<Node>>, shifted: seq<nat>)
    requires outcomes != [] && outcomes[0].Ok?
    requires ComeFrom(outcomes, later, shifted) && Increasing(shifted)
    requires CoversFrom(outcomes, shifted, 1)
    requires forall i :: 0 <= i < |shifted| ==> shifted[i] >= 1
    ensures var origin := [0] + shifted;
      && ComeFrom(outcomes, [outcomes[0].value] + later, origin)
      && Increasing(origin) && CoversFrom(outcomes, origin, 0)
  {
    var origin := [0] + shifted;
    var kept := [outcomes[0].value] + later;
    assert ComeFrom(outcomes, kept, origin) by {
      forall i | 0 <= i < |origin|
        ensures origin[i] < |outcomes| && outcomes[origin[i]].Ok? && kept[i] == outcomes[origin[i]].value
      {
        if i > 0 {
          assert origin[i] == shifted[i - 1] && kept[i] == later[i - 1];
        }
      }
    }
    assert Increasing(origin) by {
      forall i, j | 0 <= i < j < |origin|
        ensures origin[i] < origin[j]
      {
        assert origin[j] == shifted[j - 1];
        if i > 0 {
          assert origin[i] == shifted[i - 1];
        }
      }
    }
    assert CoversFrom(outcomes, origin, 0) by {
      forall d | 0 <= d < |outcomes| && outcomes[d].Ok?
        ensures d in origin
      {
        if d > 0 {
          var i :| 0 <= i < |shifted| && shifted[i] == d;
          assert origin[i + 1] == d;
        }
      }
    }
  }

  lemma {:induction false} KeptInOrder(outcomes: seq<Result<seq<Node>>>) returns (origin: seq<nat>)
    ensures ComeFrom(outcomes, Kept(outcomes), origin) && Increasing(origin) && CoversFrom(outcomes, origin, 0)
    decreases |outcomes|
  {
    if outcomes == [] {
      origin := [];
    } else {
      var later := Kept(outcomes[1..]);
      var rest := KeptInOrder(outcomes[1..]);
      ShiftComeFrom(outcomes, later, rest);
      ShiftIncreasing(rest);
      ShiftCovers(outcomes, rest);
      if outcomes[0].Ok? {
        assert Kept(outcomes) == [outcomes[0].value] + later;
        ConsOrigins(outcomes, later, Shift(rest));
        origin := [0] + Shift(rest);
      } else {
        assert Kept(outcomes) == later;
        origin := Shift(rest);
      }
    }
  }

  /** `nodes_list` holds, in input order, the complete node list of exactly
      the directories whose processing does not raise: entry `i` is the node
      list of directory `origin[i]`, the indices increase, and every
      directory that does not raise is named. */
  lemma KeptFilesInOrder(dirs: seq<ParsedDir>, readImage: ImageReader, vlm: VlmCall) returns (origin: seq<nat>)
    ensures |origin| == |NodesOfFiles(dirs, readImage, vlm)| <= |dirs|
    ensures forall i :: 0 <= i < |origin| ==>
      origin[i] < |dirs| && FileNodes(dirs[origin[i]], readImage, vlm).Ok?
      && NodesOfFiles(dirs, readImage, vlm)[i] == FileNodes(dirs[origin[i]], readImage, vlm).value
    ensures Increasing(origin)
    ensures forall d :: 0 <= d < |dirs| && FileNodes(dirs[d], readImage, vlm).Ok? ==> d in origin
  {
    origin := KeptInOrder(Outcomes(dirs, readImage, vlm));
  }

  // ---------------------------------------------------------------------------
  // The image branch: request_vlm as written and as intended
  // ---------------------------------------------------------------------------

  /** As written, the image branch always raises (an absent key, an unreadable
      image, or the TypeError of `request_vlm(system_content=...)`), so any
      file with an image item is dropped from `nodes_list`. */
  lemma ImageItemDropsFile(dir: ParsedDir, readImage: ImageReader, model: ChatModel, i: int)
    requires dir.contentList.Some? && 0 <= i < |dir.contentList.value|
    requires dir.contentList.value[i].kind == "image"
    ensures FileNodes(dir, readImage, AsWrittenCall(model)).Err?
  {
    FileFailsIffItemFails(dir, dir.contentList.value, readImage, AsWrittenCall(model));
  }

  /** With the call as intended, a readable image item whose keys are present
      yields a node whose text is the captions block, a newline, and the
      model's description of the image given with those captions. */
  lemma ImageNodeText(dir: ParsedDir, item: ContentItem, readImage: ImageReader, model: ChatModel)
    requires item.kind == "image" && item.imageCaption.Some? && item.imgPath.Some?
    requires readImage(JoinPath(dir.path, item.imgPath.value)).Some?
    ensures var caption := CaptionBlock(item.imageCaption.value);
      var b64 := readImage(JoinPath(dir.path, item.imgPath.value)).value;
      ItemToNode(dir, item, readImage, IntendedCall(model))
        == Ok(Some(Node(caption + "\n" + model([HelpfulAssistant, DescribeRequest(b64, caption)]),
                        Metadata("image", item.pageIdx, dir.parentName + ".pdf", JoinPath(dir.path, item.imgPath.value)))))
  {
  }

  /** A table item's node text is the table's Markdown, a newline, then every
      caption followed by a newline. */
  lemma TableNodeText(dir: ParsedDir, item: ContentItem, readImage: ImageReader, vlm: VlmCall)
    requires item.kind == "table" && item.tableCaption.Some? && item.imgPath.Some?
    ensures ItemToNode(dir, item, readImage, vlm).Ok?
    ensures var caps := item.tableCaption.value;
      ItemToNode(dir, item, readImage, vlm).value.value.text
        == TableToMarkdown(item.tableBody) + "\n" + (if caps == [] then "" else Join("\n", caps) + "\n")
  {
    CaptionBlockIsJoin(item.tableCaption.value);
  }
}
