/** How a chat is named after what was typed in it: the title rule and the walk over a stored batch.
    A character is a code point. */
module ChatTitle {
  import opened Sequences
  import opened JsonValues

  const NAME_CODE_POINTS := 40
  const ELLIPSIS := '\U{2026}'

  /** General categories Zs, Cc, Zl and Zp. */
  predicate Blank(c: char) {
    || c <= ' ' || '\U{7F}' <= c <= '\U{A0}' || c == '\U{1680}' || '\U{2000}' <= c <= '\U{200A}'
    || c == '\U{2028}' || c == '\U{2029}' || c == '\U{202F}' || c == '\U{205F}' || c == '\U{3000}'
  }

  function Spaced(text: string): string {
    seq(|text|, i requires 0 <= i < |text| => if Blank(text[i]) then ' ' else text[i])
  }

  /** `split(" ")`. */
  function Fields(s: string): (r: seq<string>)
    ensures |r| > 0
  {
    if s == [] then [[]]
    else
      var r := Fields(s[1..]);
      if s[0] == ' ' then [[]] + r else [[s[0]] + r[0]] + r[1..]
  }

  function NonEmpty(fields: seq<string>): seq<string> {
    if fields == [] then []
    else (if fields[0] == [] then [] else [fields[0]]) + NonEmpty(fields[1..])
  }

  function Join(words: seq<string>): string {
    if words == [] then [] else if |words| == 1 then words[0] else words[0] + " " + Join(words[1..])
  }

  function Words(text: string): seq<string> {
    NonEmpty(Fields(Spaced(text)))
  }

  function DeriveTitle(text: string): Option<string> {
    var name := Join(Words(text));
    if name == [] then None
    else if |name| <= NAME_CODE_POINTS then Some(name)
    else Some(name[..NAME_CODE_POINTS] + [ELLIPSIS])
  }

  // ----- what a title looks like -----------------------------------------------------------

  /** Trimmed, single-spaced, and with no other blank. */
  ghost predicate Clean(s: string) {
    && s != [] && s[0] != ' ' && s[|s| - 1] != ' '
    && (forall i | 0 <= i < |s| :: Blank(s[i]) ==> s[i] == ' ')
    && forall i | 0 <= i < |s| - 1 :: !(s[i] == ' ' && s[i + 1] == ' ')
  }

  ghost predicate IsWord(w: string) {
    w != [] && forall i | 0 <= i < |w| :: !Blank(w[i])
  }

  ghost predicate AreWords(ws: seq<string>) {
    forall i | 0 <= i < |ws| :: IsWord(ws[i])
  }

  /** A word, then a space and the rest, or nothing. */
  lemma {:induction false} FieldsOfWord(w: string, rest: string)
    requires forall i | 0 <= i < |w| :: w[i] != ' '
    ensures Fields(w) == [w]
    ensures Fields(w + " " + rest) == [w] + Fields(rest)
  {
    if w == [] {
      assert w + " " + rest == " " + rest;
      assert (" " + rest)[1..] == rest;
    } else {
      FieldsOfWord(w[1..], rest);
      assert [w[0]] + w[1..] == w && [w[1..]][1..] == [];
      assert (w + " " + rest)[1..] == w[1..] + " " + rest;
    }
  }

  lemma {:induction false} WordsOfJoin(ws: seq<string>)
    requires AreWords(ws)
    ensures Words(Join(ws)) == ws
  {
    hide Fields, NonEmpty, Join, Spaced, Blank;
    NoFields();
    if ws != [] {
      var w, more := ws[0], ws[1..];
      assert IsWord(w) && ws == [w] + more;
      WordsOfJoin(more);
      SpacedWord(w);
      SpacedAfter(w, Join(more));
      FieldsOfWord(w, Spaced(Join(more)));
      OneMoreWord(w, Fields(Spaced(Join(more))));
      OneMoreWord(w, []);
      assert [w] + [] == [w];
      JoinMore(w, more);
    }
  }

  lemma NoFields()
    ensures NonEmpty([]) == [] && Words([]) == [] && Join([]) == []
  {
    assert Spaced([]) == [];
  }

  lemma SpacedAfter(w: string, rest: string)
    requires Spaced(w) == w
    ensures Spaced(w + " " + rest) == w + " " + Spaced(rest)
  {
    forall i | 0 <= i < |w| ensures Spaced(w + " " + rest)[i] == w[i] {
      assert Spaced(w)[i] == w[i];
    }
  }

  lemma SpacedWord(w: string)
    requires IsWord(w)
    ensures Spaced(w) == w && forall i | 0 <= i < |w| :: w[i] != ' '
  {
  }

  ghost predicate NoSpace(w: string) {
    forall i | 0 <= i < |w| :: !Blank(w[i])
  }

  lemma {:induction false} FieldsHaveNoSpace(s: string)
    requires forall i | 0 <= i < |s| :: Blank(s[i]) ==> s[i] == ' '
    ensures forall i | 0 <= i < |Fields(s)| :: NoSpace(Fields(s)[i])
  {
    if s != [] {
      FieldsHaveNoSpace(s[1..]);
    }
  }

  lemma {:induction false} NonEmptyAreWords(fields: seq<string>)
    requires forall i | 0 <= i < |fields| :: NoSpace(fields[i])
    ensures AreWords(NonEmpty(fields))
  {
    if fields != [] {
      NonEmptyAreWords(fields[1..]);
    }
  }

  lemma WordsAreWords(text: string)
    ensures AreWords(Words(text))
  {
    FieldsHaveNoSpace(Spaced(text));
    NonEmptyAreWords(Fields(Spaced(text)));
  }

  lemma {:induction false} JoinIsClean(ws: seq<string>)
    requires AreWords(ws) && ws != []
    ensures Clean(Join(ws))
  {
    var w := ws[0];
    assert IsWord(w);
    if |ws| > 1 {
      JoinIsClean(ws[1..]);
      WordThenClean(w, Join(ws[1..]));
    }
  }

  lemma WordThenClean(w: string, rest: string)
    requires IsWord(w) && Clean(rest)
    ensures Clean(w + " " + rest)
  {
    var s := w + " " + rest;
    forall i | 0 <= i < |s| ensures Blank(s[i]) ==> s[i] == ' ' {
      assert i > |w| ==> s[i] == rest[i - |w| - 1];
    }
    forall i | 0 <= i < |s| - 1 ensures !(s[i] == ' ' && s[i + 1] == ' ') {
      assert i > |w| ==> s[i] == rest[i - |w| - 1] && s[i + 1] == rest[i - |w|];
    }
  }

  function FirstSpace(s: string): (k: nat)
    ensures k <= |s| && (k < |s| ==> s[k] == ' ') && forall i | 0 <= i < k :: s[i] != ' '
  {
    if s == [] || s[0] == ' ' then 0 else 1 + FirstSpace(s[1..])
  }

  lemma RestIsClean(s: string, k: nat)
    requires Clean(s) && k < |s| && s[k] == ' '
    ensures k + 1 < |s| && Clean(s[k + 1..])
  {
  }

  lemma CleanSpaced(s: string)
    requires forall i | 0 <= i < |s| :: Blank(s[i]) ==> s[i] == ' '
    ensures Spaced(s) == s
  {
  }

  /** A clean string is the join of its words. */
  lemma {:induction false} CleanIsJoin(s: string)
    requires Clean(s)
    ensures Words(s) != [] && Join(Words(s)) == s
    decreases |s|
  {
    hide Fields, NonEmpty, Blank, Join, Spaced;
    var k := FirstSpace(s);
    var w := s[..k];
    CleanSpaced(s);
    if k == |s| {
      FieldsOfWord(w, []);
      assert w == s;
      OneMoreWord(w, []);
      assert [w] + [] == [w];
      JoinMore(w, []);
    } else {
      RestIsClean(s, k);
      var rest := s[k + 1..];
      CleanSpaced(rest);
      CleanIsJoin(rest);
      assert s == w + " " + rest;
      FieldsOfWord(w, rest);
      OneMoreWord(w, Fields(rest));
      JoinMore(w, Words(rest));
    }
  }

  lemma JoinMore(w: string, words: seq<string>)
    ensures NonEmpty([]) == []
    ensures Join([w] + words) == if words == [] then w else w + " " + Join(words)
  {
    assert ([w] + words)[1..] == words;
  }

  lemma OneMoreWord(w: string, fields: seq<string>)
    requires w != []
    ensures NonEmpty([w] + fields) == [w] + NonEmpty(fields)
  {
    assert ([w] + fields)[1..] == fields;
  }

  /** A string with any character that is not blank has a word, and the other way about. */
  lemma {:induction false} NoWordsIffBlank(s: string)
    ensures NonEmpty(Fields(s)) == [] <==> forall i | 0 <= i < |s| :: s[i] == ' '
  {
    if s != [] {
      NoWordsIffBlank(s[1..]);
      assert s == [s[0]] + s[1..];
      if s[0] == ' ' {
        assert Fields(s)[1..] == Fields(s[1..]);
      }
    }
  }

  /** Titles are trimmed, single-spaced and at most 41 code points; text gets one exactly when some
      character of it is not blank; and a title names itself. */
  lemma TitleMeaning(text: string)
    ensures DeriveTitle(text) == None <==> forall i | 0 <= i < |text| :: Blank(text[i])
    ensures DeriveTitle(text).Some? ==>
              var name := DeriveTitle(text).value;
              Clean(name) && |name| <= NAME_CODE_POINTS + 1 && DeriveTitle(name) == Some(name)
  {
    NoWordsIffBlank(Spaced(text));
    WordsAreWords(text);
    var ws := Words(text);
    var full := Join(ws);
    if ws == [] {
      assert forall i | 0 <= i < |text| :: Spaced(text)[i] == ' ' ==> Blank(text[i]);
    } else {
      JoinIsClean(ws);
      CleanIsJoin(full);
      assert exists i :: 0 <= i < |text| && !Blank(text[i]) by {
        var i :| 0 <= i < |text| && Spaced(text)[i] != ' ';
      }
      if |full| > NAME_CODE_POINTS {
        CutIsClean(full);
        CleanIsJoin(full[..NAME_CODE_POINTS] + [ELLIPSIS]);
      }
    }
  }

  lemma CutIsClean(s: string)
    requires Clean(s) && |s| > NAME_CODE_POINTS
    ensures Clean(s[..NAME_CODE_POINTS] + [ELLIPSIS])
  {
  }

  /** A title says what was typed: uncut, it has exactly the text's words; cut, it is the start of them. */
  lemma TitleKeepsWords(text: string)
    requires DeriveTitle(text).Some?
    ensures
      var name := DeriveTitle(text).value;
      if |name| <= NAME_CODE_POINTS then Words(name) == Words(text)
      else name[..NAME_CODE_POINTS] == Join(Words(text))[..NAME_CODE_POINTS] && name[NAME_CODE_POINTS] == ELLIPSIS
  {
    WordsAreWords(text);
    WordsOfJoin(Words(text));
  }

  // ----- what was typed in one stored batch ------------------------------------------------

  /** What a `strip` takes off. */
  predicate Whitespace(c: char) {
    || '\t' <= c <= '\r' || '\U{1C}' <= c <= ' ' || c == '\U{85}' || c == '\U{A0}' || c == '\U{1680}'
    || '\U{2000}' <= c <= '\U{200A}' || c == '\U{2028}' || c == '\U{2029}' || c == '\U{202F}'
    || c == '\U{205F}' || c == '\U{3000}'
  }

  function Strip(s: string): string {
    if s == [] then []
    else if Whitespace(s[0]) then Strip(s[1..])
    else if Whitespace(s[|s| - 1]) then Strip(s[..|s| - 1])
    else s
  }

  predicate EndsWith(s: string, tail: string) {
    |tail| <= |s| && s[|s| - |tail|..] == tail
  }

  predicate IsAttachmentMarkup(text: string) {
    var stripped := Strip(text);
    "<attachment " <= stripped && (EndsWith(stripped, "</attachment>") || EndsWith(stripped, "/>"))
  }

  predicate IsRequest(message: Json) {
    Get(message, "kind") == Some(Str("request"))
  }

  predicate IsPrompt(part: Json) {
    Get(part, "part_kind") == Some(Str("user-prompt"))
  }

  /** The walk over a payload ends without raising. */
  predicate Walkable(payload: Json) {
    payload.Arr? ==>
      forall m | 0 <= m < |payload.items| && IsRequest(payload.items[m]) :: Iterable(payload.items[m])
  }

  /** The prose of a list of content items, attachment markup and markers left out. */
  function Prose(items: seq<Json>): seq<string> {
    if items == [] then []
    else
      var n := |items| - 1;
      Prose(items[..n]) +
      if items[n].Str? && !IsAttachmentMarkup(items[n].text) then [items[n].text] else []
  }

  function PartTexts(part: Json): seq<string> {
    if !IsPrompt(part) then []
    else match Get(part, "content")
      case Some(Str(text)) => [text]
      case Some(Arr(items)) => Prose(items)
      case _ => []
  }

  function PartsTexts(parts: seq<Json>): seq<string> {
    if parts == [] then [] else PartsTexts(parts[..|parts| - 1]) + PartTexts(parts[|parts| - 1])
  }

  function MessageTexts(message: Json): seq<string> {
    if IsRequest(message) then PartsTexts(Parts(message)) else []
  }

  function Texts(messages: seq<Json>): seq<string> {
    if messages == [] then [] else Texts(messages[..|messages| - 1]) + MessageTexts(messages[|messages| - 1])
  }

  /** `"\n".join`. */
  function Lines(texts: seq<string>): string {
    if texts == [] then [] else if |texts| == 1 then texts[0] else texts[0] + "\n" + Lines(texts[1..])
  }

  /** The text typed in a batch the walk gets through. */
  function Typed(payload: Json): string {
    Lines(if payload.Arr? then Texts(payload.items) else [])
  }

  lemma NoTexts()
    ensures Texts([]) == [] && PartsTexts([]) == []
  {
  }

  lemma TextsSnoc(messages: seq<Json>, m: nat)
    requires m < |messages|
    ensures Texts(messages[..m + 1]) == Texts(messages[..m]) + MessageTexts(messages[m])
  {
    assert messages[..m + 1][..m] == messages[..m];
  }

  lemma PartsTextsSnoc(parts: seq<Json>, p: nat)
    requires p < |parts|
    ensures PartsTexts(parts[..p + 1]) == PartsTexts(parts[..p]) + PartTexts(parts[p])
  {
    assert parts[..p + 1][..p] == parts[..p];
  }

  /** The walk over a batch: nothing when it raises. */
  method TypedText(payload: Json) returns (r: Option<string>)
    ensures r == if Walkable(payload) then Some(Typed(payload)) else None
  {
    hide Lines, PartTexts, IsRequest, Iterable, Parts, PartsTexts, Texts;
    NoTexts();
    var texts: seq<string> := [];
    var messages := if payload.Arr? then payload.items else [];
    for m := 0 to |messages|
      invariant texts == Texts(messages[..m])
      invariant forall i | 0 <= i < m && IsRequest(messages[i]) :: Iterable(messages[i])
    {
      TextsSnoc(messages, m);
      if IsRequest(messages[m]) {
        if !Iterable(messages[m]) {
          return None;
        }
        var parts := Parts(messages[m]);
        for p := 0 to |parts|
          invariant texts == Texts(messages[..m]) + PartsTexts(parts[..p])
        {
          PartsTextsSnoc(parts, p);
          var more := PartProse(parts[p]);
          texts := texts + more;
        }
        assert parts[..|parts|] == parts;
      }
    }
    assert messages[..|messages|] == messages;
    r := Some(Lines(texts));
  }

  /** The body of the walk over one part. */
  method PartProse(part: Json) returns (texts: seq<string>)
    ensures texts == PartTexts(part)
  {
    hide IsAttachmentMarkup;
    texts := [];
    if !IsPrompt(part) {
      return;
    }
    var content := Get(part, "content");
    if content.Some? && content.value.Str? {
      texts := [content.value.text];
    } else if content.Some? && content.value.Arr? {
      var items := content.value.items;
      for i := 0 to |items|
        invariant texts == Prose(items[..i])
      {
        assert items[..i + 1][..i] == items[..i];
        if items[i].Str? && !IsAttachmentMarkup(items[i].text) {
          texts := texts + [items[i].text];
        }
      }
      assert items[..|items|] == items;
    }
  }

  /** The containment probe that keeps rows without a user prompt off the wire. */
  predicate Probed(payload: Json) {
    && payload.Arr?
    && exists m :: 0 <= m < |payload.items| && IsRequest(payload.items[m]) && HasPrompt(Parts(payload.items[m]))
  }

  predicate HasPrompt(parts: seq<Json>) {
    exists p :: 0 <= p < |parts| && IsPrompt(parts[p])
  }

  lemma {:induction false} TextComesFromAPrompt(parts: seq<Json>)
    requires PartsTexts(parts) != []
    ensures HasPrompt(parts)
  {
    var n := |parts| - 1;
    if !IsPrompt(parts[n]) {
      TextComesFromAPrompt(parts[..n]);
      var p :| 0 <= p < n && IsPrompt(parts[..n][p]);
      assert IsPrompt(parts[p]);
    }
  }

  lemma {:induction false} TextComesFromARequest(messages: seq<Json>) returns (m: nat)
    requires Texts(messages) != []
    ensures m < |messages| && IsRequest(messages[m]) && HasPrompt(Parts(messages[m]))
  {
    hide Parts, IsPrompt;
    var n := |messages| - 1;
    if MessageTexts(messages[n]) != [] {
      m := n;
      TextComesFromAPrompt(Parts(messages[n]));
    } else {
      m := TextComesFromARequest(messages[..n]);
    }
  }

  /** No batch that could name a chat is kept off the wire. */
  lemma ProbeLosesNoTitle(payload: Json)
    requires DeriveTitle(Typed(payload)).Some?
    ensures Probed(payload)
  {
    TitleMeaning(Typed(payload));
    hide DeriveTitle, IsRequest, Parts, Blank;
    assert payload.Arr? && Texts(payload.items) != [];
    var m := TextComesFromARequest(payload.items);
    assert IsRequest(payload.items[m]) && HasPrompt(Parts(payload.items[m]));
  }
}
