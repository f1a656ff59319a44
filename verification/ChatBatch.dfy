/** What a stored batch of messages holds, written down and read back: the text typed in it is what the citizen's
    prompts say, attachments and markers left out. */
module ChatBatch {
  import opened Sequences
  import opened JsonValues
  import opened ChatTitle

  // ----- characters ------------------------------------------------------------------------

  /** General categories Zs, Zl and Zp. */
  const SEPARATORS := {
    ' ', '\U{A0}', '\U{1680}', '\U{2000}', '\U{2001}', '\U{2002}', '\U{2003}', '\U{2004}', '\U{2005}', '\U{2006}',
    '\U{2007}', '\U{2008}', '\U{2009}', '\U{200A}', '\U{202F}', '\U{205F}', '\U{3000}', '\U{2028}', '\U{2029}'}

  /** General category Cc. */
  predicate Control(c: char) {
    c <= '\U{1F}' || '\U{7F}' <= c <= '\U{9F}'
  }

  /** The controls that `strip` takes off. */
  const STRIPPED_CONTROLS := {
    '\t', '\n', '\U{0B}', '\U{0C}', '\r', '\U{1C}', '\U{1D}', '\U{1E}', '\U{1F}', '\U{85}'}

  lemma BlankByCategory(c: char)
    ensures Blank(c) <==> Control(c) || c in SEPARATORS
    ensures Whitespace(c) <==> c in STRIPPED_CONTROLS || c in SEPARATORS
  {
  }

  ghost predicate Padding(s: string) {
    forall i | 0 <= i < |s| :: s[i] in STRIPPED_CONTROLS || s[i] in SEPARATORS
  }

  // ----- attachment markup -----------------------------------------------------------------

  lemma {:induction false} StripTakes(pre: string, s: string, post: string)
    requires Padding(pre) && Padding(post) && s != [] && !Whitespace(s[0]) && !Whitespace(s[|s| - 1])
    ensures Strip(pre + s + post) == s
    decreases |pre| + |post|
  {
    var t := pre + s + post;
    if pre != [] {
      BlankByCategory(pre[0]);
      assert t[0] == pre[0] && t[1..] == pre[1..] + s + post;
      StripTakes(pre[1..], s, post);
    } else if post != [] {
      var n := |post| - 1;
      BlankByCategory(post[n]);
      assert t[0] == s[0] && t[|t| - 1] == post[n] && t[..|t| - 1] == pre + s + post[..n];
      StripTakes(pre, s, post[..n]);
    } else {
      assert t == s;
    }
  }

  lemma FrontBack(c: char, p: string, s: string, q: string)
    ensures [c] + (p + s + q) == ([c] + p) + s + q
  {
  }

  lemma BackBack(p: string, s: string, q: string, c: char)
    ensures (p + s + q) + [c] == p + s + (q + [c])
  {
  }

  lemma {:induction false} StripLeaves(s: string) returns (pre: string, post: string)
    ensures Padding(pre) && Padding(post) && s == pre + Strip(s) + post
  {
    if s == [] {
      pre, post := [], [];
    } else if Whitespace(s[0]) {
      BlankByCategory(s[0]);
      var p, q := StripLeaves(s[1..]);
      pre, post := [s[0]] + p, q;
      FrontBack(s[0], p, Strip(s[1..]), q);
      assert s == [s[0]] + s[1..];
    } else if Whitespace(s[|s| - 1]) {
      var n := |s| - 1;
      BlankByCategory(s[n]);
      var p, q := StripLeaves(s[..n]);
      pre, post := p, q + [s[n]];
      BackBack(p, Strip(s[..n]), q, s[n]);
      assert s == s[..n] + [s[n]];
    } else {
      pre, post := [], [];
    }
  }

  /** `text` is `<attachment ...` up to a closing tag or `/>`, with nothing but padding around it. */
  ghost predicate Markup(text: string) {
    exists pre, inside, tail, post :: MarkupWith(text, pre, inside, tail, post)
  }

  ghost predicate MarkupWith(text: string, pre: string, inside: string, tail: string, post: string) {
    && text == pre + ("<attachment " + inside + tail) + post && Padding(pre) && Padding(post)
    && (tail == "</attachment>" || tail == "/>")
  }

  lemma MarkupIff(text: string)
    ensures IsAttachmentMarkup(text) <==> Markup(text)
  {
    if Markup(text) {
      var pre, inside, tail, post :| MarkupWith(text, pre, inside, tail, post);
      var s := "<attachment " + inside + tail;
      assert s[0] == '<' && s[|s| - 1] == tail[|tail| - 1] == '>';
      StripTakes(pre, s, post);
      assert s[..12] == "<attachment " && s[|s| - |tail|..] == tail;
    }
    if IsAttachmentMarkup(text) {
      var s := Strip(text);
      var pre, post := StripLeaves(text);
      var tail := if EndsWith(s, "</attachment>") then "</attachment>" else "/>";
      TailBehindName(s, tail);
      assert MarkupWith(text, pre, s[12..|s| - |tail|], tail, post);
    }
  }

  lemma TailBehindName(s: string, tail: string)
    requires "<attachment " <= s && EndsWith(s, tail) && (tail == "</attachment>" || tail == "/>")
    ensures 12 <= |s| - |tail| && s == "<attachment " + s[12..|s| - |tail|] + tail
  {
    var n := |s| - |tail|;
    assert forall i | 0 <= i < |tail| :: s[n + i] == s[n..][i] == tail[i];
    assert forall i | 0 <= i < 12 :: s[i] == "<attachment "[i];
    assert s[n] == tail[0] && s[n + 1] == tail[1] && s[1] == 'a';
    if n < 12 {
      NameHolds(n);
    }
  }

  lemma NameHolds(n: nat)
    requires n < 12
    ensures "<attachment "[n] != '/' && ("<attachment "[n] == '<' ==> n == 0)
  {
  }

  // ----- a batch, written down -------------------------------------------------------------

  datatype Item = Said(text: string) | Attachment(text: string) | Marker(json: Json)

  datatype Content = Bare(text: string) | Items(items: seq<Item>) | Other(json: Option<Json>)

  datatype Part = Prompt(more: map<string, Json>, content: Content) | OtherPart(json: Json)

  /** `NoParts` is a request without a list of parts, or with a text or an object in its place. */
  datatype Stored = Request(more: map<string, Json>, parts: seq<Part>) | NoParts(more: map<string, Json>) | OtherMessage(json: Json)

  ghost predicate ValidItem(i: Item) {
    match i
    case Said(text) => !Markup(text)
    case Attachment(text) => Markup(text)
    case Marker(json) => !json.Str?
  }

  ghost predicate ValidPart(p: Part) {
    match p
    case Prompt(_, Items(items)) => forall i | 0 <= i < |items| :: ValidItem(items[i])
    case Prompt(_, Other(json)) => json.None? || (!json.value.Str? && !json.value.Arr?)
    case Prompt(_, _) => true
    case OtherPart(json) => !TextAt(json, "part_kind", "user-prompt")
  }

  ghost predicate ValidMessage(s: Stored) {
    match s
    case Request(_, parts) => forall i | 0 <= i < |parts| :: ValidPart(parts[i])
    case NoParts(more) => "parts" in more ==> more["parts"].Str? || more["parts"].Obj?
    case OtherMessage(json) => !TextAt(json, "kind", "request")
  }

  function ItemJson(i: Item): Json {
    match i
    case Said(text) => Str(text)
    case Attachment(text) => Str(text)
    case Marker(json) => json
  }

  function PartJson(p: Part): Json {
    match p
    case Prompt(more, content) =>
      var fields := more["part_kind" := Str("user-prompt")];
      (match content
       case Bare(text) => Obj(fields["content" := Str(text)])
       case Items(items) => Obj(fields["content" := Arr(seq(|items|, i requires 0 <= i < |items| => ItemJson(items[i])))])
       case Other(Some(json)) => Obj(fields["content" := json])
       case Other(None) => Obj(fields - {"content"}))
    case OtherPart(json) => json
  }

  function MessageJson(s: Stored): Json {
    match s
    case Request(more, parts) =>
      Obj(more["kind" := Str("request")]["parts" := Arr(seq(|parts|, i requires 0 <= i < |parts| => PartJson(parts[i])))])
    case NoParts(more) => Obj(more["kind" := Str("request")])
    case OtherMessage(json) => json
  }

  function BatchJson(batch: seq<Stored>): Json {
    Arr(seq(|batch|, i requires 0 <= i < |batch| => MessageJson(batch[i])))
  }

  // ----- and read back ---------------------------------------------------------------------

  function ItemSays(i: Item): seq<string> {
    if i.Said? then [i.text] else []
  }

  function ItemsSay(items: seq<Item>): seq<string> {
    if items == [] then [] else ItemsSay(items[..|items| - 1]) + ItemSays(items[|items| - 1])
  }

  function PartSays(p: Part): seq<string> {
    match p
    case Prompt(_, Bare(text)) => [text]
    case Prompt(_, Items(items)) => ItemsSay(items)
    case _ => []
  }

  function PartsSay(parts: seq<Part>): seq<string> {
    if parts == [] then [] else PartsSay(parts[..|parts| - 1]) + PartSays(parts[|parts| - 1])
  }

  function MessageSays(s: Stored): seq<string> {
    if s.Request? then PartsSay(s.parts) else []
  }

  function BatchSays(batch: seq<Stored>): seq<string> {
    if batch == [] then [] else BatchSays(batch[..|batch| - 1]) + MessageSays(batch[|batch| - 1])
  }

  /** The texts with a line break between each two. */
  function OnLines(texts: seq<string>): string {
    if texts == [] then []
    else if |texts| == 1 then texts[0]
    else OnLines(texts[..|texts| - 1]) + ['\n'] + texts[|texts| - 1]
  }

  lemma {:induction false} LinesSnoc(texts: seq<string>, last: string)
    requires texts != []
    ensures Lines(texts + [last]) == Lines(texts) + ['\n'] + last
  {
    assert "\n" == ['\n'];
    if |texts| == 1 {
      assert (texts + [last])[1..] == [last];
    } else {
      assert (texts + [last])[1..] == texts[1..] + [last];
      LinesSnoc(texts[1..], last);
    }
  }

  lemma {:induction false} LinesAreJoined(texts: seq<string>)
    ensures Lines(texts) == OnLines(texts)
  {
    if |texts| > 1 {
      var n := |texts| - 1;
      LinesAreJoined(texts[..n]);
      LinesSnoc(texts[..n], texts[n]);
      assert texts == texts[..n] + [texts[n]];
    }
  }

  lemma {:induction false} ItemsRead(items: seq<Item>)
    requires forall i | 0 <= i < |items| :: ValidItem(items[i])
    ensures Prose(seq(|items|, i requires 0 <= i < |items| => ItemJson(items[i]))) == ItemsSay(items)
  {
    hide IsAttachmentMarkup, Markup;
    if items != [] {
      var n := |items| - 1;
      var js := seq(|items|, i requires 0 <= i < |items| => ItemJson(items[i]));
      ItemsRead(items[..n]);
      assert js[..n] == seq(n, i requires 0 <= i < n => ItemJson(items[..n][i]));
      if !items[n].Marker? {
        MarkupIff(items[n].text);
      }
    }
  }

  lemma PartRead(p: Part)
    requires ValidPart(p)
    ensures PartTexts(PartJson(p)) == PartSays(p)
  {
    hide Prose, ItemsSay, ItemJson, ValidItem;
    if p.Prompt? && p.content.Items? {
      ItemsRead(p.content.items);
    }
  }

  lemma {:induction false} PartsRead(parts: seq<Part>)
    requires forall i | 0 <= i < |parts| :: ValidPart(parts[i])
    ensures PartsTexts(seq(|parts|, i requires 0 <= i < |parts| => PartJson(parts[i]))) == PartsSay(parts)
  {
    hide PartTexts, PartSays, PartJson, ValidPart;
    if parts != [] {
      var n := |parts| - 1;
      var js := seq(|parts|, i requires 0 <= i < |parts| => PartJson(parts[i]));
      PartsRead(parts[..n]);
      assert js[..n] == seq(n, i requires 0 <= i < n => PartJson(parts[..n][i]));
      PartRead(parts[n]);
    }
  }

  lemma MessageRead(s: Stored)
    requires ValidMessage(s)
    ensures MessageTexts(MessageJson(s)) == MessageSays(s)
    ensures IsRequest(MessageJson(s)) ==> Iterable(MessageJson(s))
  {
    hide PartsTexts, PartsSay, PartJson, ValidPart;
    if s.Request? {
      PartsRead(s.parts);
    }
    assert PartsTexts([]) == [] by {
      NoTexts();
    }
  }

  lemma {:induction false} MessagesRead(batch: seq<Stored>)
    requires forall i | 0 <= i < |batch| :: ValidMessage(batch[i])
    ensures Texts(BatchJson(batch).items) == BatchSays(batch)
  {
    hide MessageTexts, MessageSays, MessageJson, ValidMessage;
    if batch != [] {
      var n := |batch| - 1;
      MessagesRead(batch[..n]);
      assert BatchJson(batch).items[..n] == BatchJson(batch[..n]).items;
      MessageRead(batch[n]);
    }
  }

  /** The walk over a batch gives what its prompts say, on one line each, and raises at no batch like this. */
  lemma BatchReadBack(batch: seq<Stored>)
    requires forall i | 0 <= i < |batch| :: ValidMessage(batch[i])
    ensures Walkable(BatchJson(batch)) && Typed(BatchJson(batch)) == OnLines(BatchSays(batch))
  {
    hide Lines, Texts, BatchSays, MessageJson, ValidMessage, IsRequest, Iterable;
    MessagesRead(batch);
    LinesAreJoined(BatchSays(batch));
    forall i | 0 <= i < |batch| && IsRequest(MessageJson(batch[i])) ensures Iterable(MessageJson(batch[i])) {
      MessageRead(batch[i]);
    }
  }

  /** It raises at a request whose parts are null, a truth value or a number, wherever it stands. */
  lemma UnwalkableIff(messages: seq<Json>)
    ensures !Walkable(Arr(messages)) <==>
              exists i :: 0 <= i < |messages| && TextAt(messages[i], "kind", "request") && BadParts(messages[i])
  {
  }

  /** One of the parts is a user prompt. */
  ghost predicate Prompted(message: Json) {
    && message.Obj? && "parts" in message.fields && message.fields["parts"].Arr?
    && exists j :: 0 <= j < |message.fields["parts"].items|
                   && TextAt(message.fields["parts"].items[j], "part_kind", "user-prompt")
  }

  /** The probe lets a batch through exactly when one of its requests has a user prompt. */
  lemma ProbedIff(payload: Json)
    ensures Probed(payload) <==>
              && payload.Arr?
              && exists i :: 0 <= i < |payload.items|
                             && TextAt(payload.items[i], "kind", "request") && Prompted(payload.items[i])
  {
    if payload.Arr? {
      forall i | 0 <= i < |payload.items|
        ensures IsRequest(payload.items[i]) <==> TextAt(payload.items[i], "kind", "request")
        ensures HasPrompt(Parts(payload.items[i])) <==> Prompted(payload.items[i])
      {
        PromptedIff(payload.items[i]);
      }
      hide IsRequest, HasPrompt, Parts, TextAt, Prompted;
    }
  }

  lemma PromptedIff(message: Json)
    ensures HasPrompt(Parts(message)) <==> Prompted(message)
  {
  }
}
