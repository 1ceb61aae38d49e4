/**
 The string-saving node (`StringSaveNode.save_string`): it turns its input into
 one stripped text, and unless that text is empty writes it, followed by a line
 break, into a ".txt" file of the save folder — a new numbered file in
 single-file mode, or appended to one wildcard file so that each saved text
 becomes a group of lines the wildcard nodes read back.
 */
module StringSave {
  import opened Results
  import opened Text
  import opened Lines
  import opened FileNaming

  /** The input as the node sees it. Every non-string value carries `str(value)`,
      which Python computes and the model takes as given. */
  datatype Value =
    | Str(s: string)
    | Dict(fields: map<string, Value>, shown: string)
    | Items(items: seq<Value>, shown: string)   // a list or a tuple
    | Other(shown: string)

  /** `str(value)`. */
  function Render(v: Value): string {
    match v
    case Str(s) => s
    case Dict(_, shown) => shown
    case Items(_, shown) => shown
    case Other(shown) => shown
  }

  /** The dictionary fields that may hold the prompt, in order of preference. */
  const PromptKeys: seq<string> := ["output", "prompt", "text", "result", "content", "response"]

  /** The position of the first of `keys` present, if any. */
  function FirstPresent(keys: seq<string>, present: set<string>): (r: Option<nat>)
    ensures r.Some? ==> r.value < |keys| && keys[r.value] in present
    ensures r.Some? ==> forall j :: 0 <= j < r.value ==> keys[j] !in present
    ensures r.None? <==> forall j :: 0 <= j < |keys| ==> keys[j] !in present
  {
    if |keys| == 0 then None
    else if keys[0] in present then Some(0)
    else
      match FirstPresent(keys[1..], present)
      case None => None
      case Some(i) => Some(i + 1)
  }

  /** The text taken from a dictionary: its first prompt key, else the whole dictionary. */
  function DictText(fields: map<string, Value>, shown: string): (r: string)
    ensures IsStripped(r)
  {
    match FirstPresent(PromptKeys, fields.Keys)
    case Some(i) => Strip(Render(fields[PromptKeys[i]]))
    case None => Strip(shown)
  }

  /** The text of a value that is not unpacked as a list. */
  function ItemText(v: Value): (r: string)
    ensures IsStripped(r)
  {
    if v.Dict? then DictText(v.fields, v.shown) else Strip(Render(v))
  }

  /** The stripped text the node saves; a list or tuple gives the text of its first
      item (without unpacking a nested list), an empty one gives "". */
  function ExtractText(v: Value): (r: string)
    ensures IsStripped(r)
    ensures v.Items? && |v.items| == 0 ==> r == ""
  {
    match v
    case Items(items, _) => if |items| == 0 then "" else ItemText(items[0])
    case _ => ItemText(v)
  }

  /** A dictionary yields its most preferred prompt key that is present, whatever the
      other fields hold. */
  lemma DictTextUsesPreferredKey(fields: map<string, Value>, shown: string, i: nat)
    requires i < |PromptKeys| && PromptKeys[i] in fields
    requires forall j :: 0 <= j < i ==> PromptKeys[j] !in fields
    ensures DictText(fields, shown) == Strip(Render(fields[PromptKeys[i]]))
    ensures ExtractText(Dict(fields, shown)) == DictText(fields, shown)
  {
    var r := FirstPresent(PromptKeys, fields.Keys);
    assert r.Some? by {
      assert PromptKeys[i] in fields.Keys;
    }
  }

  /** A dictionary without any prompt key is saved as its whole rendering. */
  lemma DictTextWithoutPromptKey(fields: map<string, Value>, shown: string)
    requires forall j :: 0 <= j < |PromptKeys| ==> PromptKeys[j] !in fields
    ensures DictText(fields, shown) == Strip(shown)
  {
    assert FirstPresent(PromptKeys, fields.Keys).None?;
  }

  /** A list or tuple is saved as its first item would be, except that a nested list
      is rendered rather than unpacked. */
  lemma ListUsesFirstItem(first: Value, rest: seq<Value>, shown: string)
    ensures !first.Items? ==> ExtractText(Items([first] + rest, shown)) == ExtractText(first)
    ensures first.Items? ==> ExtractText(Items([first] + rest, shown)) == Strip(first.shown)
  {
    assert ([first] + rest)[0] == first;
  }

  /** The two save modes. */
  datatype Mode = SingleFile | WildcardsFormat

  /** The text files of the save folder, by name. */
  type Folder = map<string, string>

  function ContentOf(folder: Folder, name: string): string {
    if name in folder then folder[name] else ""
  }

  /** A text ends its last line (or is empty): appending to it starts a new line. */
  predicate EndsLine(text: string) {
    |text| == 0 || IsLineBreak(text[|text| - 1])
  }

  /** Appending a saved text and a line break to a file that ends its last line adds
      exactly the prompts of that text to the prompts of the file. */
  lemma AppendAddsPrompts(previous: string, text: string)
    requires EndsLine(previous)
    ensures PromptLines(previous + text + "\n") == PromptLines(previous) + PromptLines(text)
    ensures EndsLine(previous + text + "\n")
  {
    assert previous + text + "\n" == previous + (text + "\n");
    PromptLinesAppend(previous, text + "\n");
    PromptLinesEndLine(text);
  }

  /** A one-line text is read back as one more prompt, itself. */
  lemma AppendOneLine(previous: string, text: string)
    requires EndsLine(previous)
    requires text != "" && IsStripped(text) && NoLineBreak(text)
    ensures PromptLines(previous + text + "\n") == PromptLines(previous) + [text]
  {
    AppendAddsPrompts(previous, text);
    PromptLinesOfOne(text);
  }

  /** Single-file mode wrote `text` and a line break to `name`, the first numbered
      name that was free, and changed nothing else. */
  ghost predicate WroteNewFile(folder: Folder, base: string, text: string, name: string, after: Folder) {
    && name !in folder
    && after == folder[name := text + "\n"]
    && exists n: nat :: name == NumberedName(base, n)
                        && forall k :: 0 <= k < n ==> NumberedName(base, k) in folder
  }

  /** Wildcards mode appended `text` and a line break to `base.txt` (creating it if
      missing) and changed nothing else. */
  predicate AppendedGroup(folder: Folder, base: string, text: string, name: string, after: Folder) {
    && name == base + TextExtension
    && after == folder[name := ContentOf(folder, name) + text + "\n"]
  }

  /** One call: the node's result (`""` when nothing was saved, the input itself
      otherwise), the name written, and the folder afterwards. `flavour` is the
      platform's `os.path`. */
  method Save(v: Value, fileName: string, mode: Mode, flavour: PathFlavour, folder: Folder)
    returns (result: Value, written: Option<string>, after: Folder)
    ensures ExtractText(v) == "" <==> written.None?
    ensures written.None? ==> result == Str("") && after == folder
    ensures written.Some? ==> result == v
    ensures written.Some? && mode.SingleFile? ==>
              WroteNewFile(folder, SplitExt(fileName, flavour).0, ExtractText(v), written.value, after)
    ensures written.Some? && mode.WildcardsFormat? ==>
              AppendedGroup(folder, SplitExt(fileName, flavour).0, ExtractText(v), written.value, after)
  {
    var text := ExtractText(v);
    if text == "" {
      return Str(""), None, folder;
    }
    var base := SplitExt(fileName, flavour).0;
    var name: string;
    if mode.SingleFile? {
      var n: nat;
      name, n := FirstFreeName(base, folder.Keys);
      after := folder[name := text + "\n"];
    } else {
      name := base + TextExtension;
      after := folder[name := ContentOf(folder, name) + text + "\n"];
    }
    result, written := v, Some(name);
  }

  /** A new file holds exactly the prompts of the saved text, and the other files of
      the folder are untouched. */
  lemma NewFileReadsBack(folder: Folder, text: string, name: string, after: Folder)
    requires name !in folder && after == folder[name := text + "\n"]
    ensures name in after && EndsLine(after[name])
    ensures PromptLines(after[name]) == PromptLines(text)
    ensures forall other :: other in folder ==> other in after && after[other] == folder[other]
  {
    PromptLinesEndLine(text);
  }

  /** A wildcard file that ends its last line gains exactly the prompts of the saved
      text, after its own, and still ends its last line, so every later save adds its
      group as well. */
  lemma AppendedGroupReadsBack(folder: Folder, text: string, name: string, after: Folder)
    requires after == folder[name := ContentOf(folder, name) + text + "\n"]
    requires EndsLine(ContentOf(folder, name))
    ensures name in after && EndsLine(after[name])
    ensures PromptLines(after[name]) == PromptLines(ContentOf(folder, name)) + PromptLines(text)
    ensures forall other :: other in folder && other != name ==> other in after && after[other] == folder[other]
  {
    var previous := ContentOf(folder, name);
    UpdateOnly(folder, name, previous + text + "\n", after);
    GroupReadsBack(previous, text, after[name]);
  }

  /** `AppendAddsPrompts`, about the appended contents under a name of their own. */
  lemma GroupReadsBack(previous: string, text: string, updated: string)
    requires EndsLine(previous) && updated == previous + text + "\n"
    ensures EndsLine(updated)
    ensures PromptLines(updated) == PromptLines(previous) + PromptLines(text)
  {
    AppendAddsPrompts(previous, text);
  }

  /** Storing one entry changes no other entry. */
  lemma UpdateOnly<K, V>(m: map<K, V>, k: K, v: V, m': map<K, V>)
    requires m' == m[k := v]
    ensures k in m' && m'[k] == v
    ensures forall o :: o in m && o != k ==> o in m' && m'[o] == m[o]
  {
  }
}
