/**
 * The struct-tag extractor: the serialization name, the ignore flag, the
 * `required` flag and the `enum=` / `oneof=` value lists, read out of a
 * field's tag literal such as `json:"name,omitempty" validate:"required,oneof=a b"`.
 */
module JsonTag {
  import opened Wrappers
  import opened GoStrings
  import opened GoAst

  /** What `parseJSONTag` extracts from one field. */
  datatype JsonTagInfo = JsonTagInfo(name: string, ignore: bool, required: bool, enum: seq<string>, description: string)

  /** `parseJSONTag`'s `(j, err)`: on an error the partially filled record is still returned. */
  datatype TagResult = TagResult(info: JsonTagInfo, err: Option<string>)

  const DescriptionKey: string := "openapi-description"

  /** The message of `strconv.ErrSyntax`. */
  const InvalidSyntax: string := "invalid syntax"

  /** The field's first identifier, or "" for an embedded field. */
  function IdentName(f: Field): string {
    if |f.names| > 0 then f.names[0] else ""
  }

  /** The record holding only the identifier's name. */
  function IdentOnly(f: Field): JsonTagInfo {
    JsonTagInfo(IdentName(f), false, false, [], "")
  }

  /** `\w` of Go's regular expressions: ASCII letters, digits and underscore. */
  predicate IsWordChar(c: char) {
    ('a' <= c <= 'z') || ('A' <= c <= 'Z') || ('0' <= c <= '9') || c == '_'
  }

  /** The character class `[\w ]`. */
  predicate InCaptureClass(c: char) {
    IsWordChar(c) || c == ' '
  }

  /** The end of the longest run of `[\w ]` characters starting at `i`. */
  function RunEnd(v: string, i: nat): (j: nat)
    requires i <= |v|
    ensures i <= j <= |v|
    ensures forall k :: i <= k < j ==> InCaptureClass(v[k])
    ensures j == |v| || !InCaptureClass(v[j])
    decreases |v| - i
  {
    if i < |v| && InCaptureClass(v[i]) then RunEnd(v, i + 1) else i
  }

  /** `key` occurs at `i` and is followed by at least one `[\w ]` character. */
  predicate MatchesAt(v: string, key: string, i: int) {
    0 <= i && i + |key| < |v| && v[i..i + |key|] == key && InCaptureClass(v[i + |key|])
  }

  /**
   * The submatch of the regular expression `key([\w ]+)` in `v`, looking at
   * positions from `i` on: the leftmost match, whose group is the greedy run
   * of `[\w ]` characters after `key`.
   */
  function Capture(v: string, key: string, i: nat): (r: Option<string>)
    ensures r.None? <==> forall k :: i <= k ==> !MatchesAt(v, key, k)
    ensures r.Some? ==> exists k ::
      && i <= k && MatchesAt(v, key, k) && r.value == v[k + |key|..RunEnd(v, k + |key|)]
      && forall m :: i <= m < k ==> !MatchesAt(v, key, m)
    decreases |v| - i
  {
    if MatchesAt(v, key, i) then Some(v[i + |key|..RunEnd(v, i + |key|)])
    else if i < |v| then Capture(v, key, i + 1)
    else None
  }

  /**
   * The enum list one `validate` token sets, if any: the `enum=` match is
   * applied first and a `oneof=` match overrides it.
   */
  function TokenEnum(v: string): Option<seq<string>> {
    var oneOf := Capture(v, "oneof=", 0);
    var enum := Capture(v, "enum=", 0);
    if oneOf.Some? then Some(Fields(oneOf.value))
    else if enum.Some? then Some(Fields(enum.value))
    else None
  }

  /** The enum list left by the last token that sets one, or the empty list. */
  function LastEnum(tokens: seq<string>): seq<string> {
    if |tokens| == 0 then []
    else
      match TokenEnum(tokens[|tokens| - 1])
      case Some(e) => e
      case None => LastEnum(tokens[..|tokens| - 1])
  }

  /** The JSON key of a tag: the text of its `json` value before the first comma. */
  function JsonName(tv: string, tags: TagSyntax): string {
    Split(tags.get(tv, "json"), ',')[0]
  }

  /** The comma-separated tokens of a tag's `validate` value. */
  function ValidateTokens(tv: string, tags: TagSyntax): seq<string> {
    Split(tags.get(tv, "validate"), ',')
  }

  /** What `parseJSONTag` computes, stated as a function of the field. */
  function JsonTagOf(f: Field, tags: TagSyntax): (r: TagResult)
    ensures r.err.Some? <==> f.tag.Some? && |TrimSpace(f.tag.value)| > 0 && tags.unquote(f.tag.value).None?
    ensures r.err.Some? ==> r.info == IdentOnly(f)
    ensures r.info.ignore ==> !r.info.required && r.info.name == IdentName(f)
  {
    if f.tag.None? || |TrimSpace(f.tag.value)| == 0 then TagResult(IdentOnly(f), None)
    else
      match tags.unquote(f.tag.value)
      case None => TagResult(IdentOnly(f), Some(InvalidSyntax))
      case Some(tv) =>
        if TrimSpace(tv) == "" then TagResult(IdentOnly(f), None)
        else
          var jsonName := JsonName(tv, tags);
          if jsonName == "-" then TagResult(IdentOnly(f).(ignore := true, required := false), None)
          else if jsonName != "" then
            var tokens := ValidateTokens(tv, tags);
            TagResult(JsonTagInfo(jsonName, false, "required" in tokens, LastEnum(tokens), tags.get(tv, DescriptionKey)), None)
          else TagResult(IdentOnly(f), None)
  }

  /**
   * The loop of `parseJSONTag` over the `validate` tokens: `required` is set
   * by a token that is exactly "required", the enum list by every token that
   * matches `enum=` and then `oneof=`.
   */
  method ScanValidate(validateData: seq<string>) returns (required: bool, enum: seq<string>)
    ensures required <==> "required" in validateData
    ensures enum == LastEnum(validateData)
  {
    required := false;
    enum := [];
    for i := 0 to |validateData|
      invariant required <==> "required" in validateData[..i]
      invariant enum == LastEnum(validateData[..i])
    {
      var v := validateData[i];
      assert validateData[..i + 1][..i] == validateData[..i];
      if v == "required" {
        required := true;
      }
      var m := Capture(v, "enum=", 0);
      if m.Some? {
        enum := Fields(m.value);
      }
      m := Capture(v, "oneof=", 0);
      if m.Some? {
        enum := Fields(m.value);
      }
    }
    assert validateData[..|validateData|] == validateData;
  }

  /** `parseJSONTag(field)`. */
  method ParseJSONTag(f: Field, tags: TagSyntax) returns (j: JsonTagInfo, err: Option<string>)
    ensures TagResult(j, err) == JsonTagOf(f, tags)
  {
    j := JsonTagInfo("", false, false, [], "");
    err := None;
    if |f.names| > 0 {
      j := j.(name := f.names[0]);
    }
    if f.tag.Some? && |TrimSpace(f.tag.value)| > 0 {
      var tv := tags.unquote(f.tag.value);
      if tv.None? {
        err := Some(InvalidSyntax);
        return;
      }
      if TrimSpace(tv.value) != "" {
        var jsonName := Split(tags.get(tv.value, "json"), ',')[0];
        if jsonName == "-" {
          j := j.(ignore := true, required := false);
          return;
        } else if jsonName != "" {
          var required, enum := ScanValidate(Split(tags.get(tv.value, "validate"), ','));
          j := JsonTagInfo(jsonName, false, required, enum, tags.get(tv.value, DescriptionKey));
          return;
        }
      }
    }
  }

  /** A field without a tag, or with a blank one, yields only its identifier's name. */
  lemma NoTagIdentOnly(f: Field, tags: TagSyntax)
    requires f.tag.None? || AllSpace(f.tag.value)
    ensures JsonTagOf(f, tags) == TagResult(JsonTagInfo(IdentName(f), false, false, [], ""), None)
  {
    if f.tag.Some? {
      TrimSpaceFacts(f.tag.value);
    }
  }

  /** A tag literal that does not unquote is an error, and only the identifier's name is kept. */
  lemma MalformedTag(f: Field, tags: TagSyntax)
    requires f.tag.Some? && !AllSpace(f.tag.value) && tags.unquote(f.tag.value).None?
    ensures JsonTagOf(f, tags).err == Some(InvalidSyntax)
    ensures JsonTagOf(f, tags).info == IdentOnly(f)
  {
    TrimSpaceFacts(f.tag.value);
  }

  /** `json:"-"` marks the field ignored and not required, and sets nothing else. */
  lemma IgnoredField(f: Field, tags: TagSyntax, tv: string)
    requires f.tag.Some? && !AllSpace(f.tag.value) && tags.unquote(f.tag.value) == Some(tv)
    requires !AllSpace(tv) && JsonName(tv, tags) == "-"
    ensures JsonTagOf(f, tags) == TagResult(JsonTagInfo(IdentName(f), true, false, [], ""), None)
  {
    TrimSpaceFacts(f.tag.value);
    TrimSpaceFacts(tv);
  }

  /**
   * A non-empty JSON key overrides the identifier's name; `required` holds
   * exactly when some `validate` token is `required`; the enum list is that
   * of the last `enum=` / `oneof=` token.
   */
  lemma NamedField(f: Field, tags: TagSyntax, tv: string)
    requires f.tag.Some? && !AllSpace(f.tag.value) && tags.unquote(f.tag.value) == Some(tv)
    requires !AllSpace(tv) && JsonName(tv, tags) != "-" && JsonName(tv, tags) != ""
    ensures JsonTagOf(f, tags).err.None?
    ensures JsonTagOf(f, tags).info.name == JsonName(tv, tags)
    ensures !JsonTagOf(f, tags).info.ignore
    ensures JsonTagOf(f, tags).info.required <==> exists k :: 0 <= k < |ValidateTokens(tv, tags)| && ValidateTokens(tv, tags)[k] == "required"
    ensures JsonTagOf(f, tags).info.enum == LastEnum(ValidateTokens(tv, tags))
  {
    TrimSpaceFacts(f.tag.value);
    TrimSpaceFacts(tv);
  }

  /** The JSON key is the `json` value itself, or the text before its first comma. */
  lemma JsonNameBeforeComma(tv: string, tags: TagSyntax)
    ensures ',' !in JsonName(tv, tags)
    ensures HasPrefix(tags.get(tv, "json"), JsonName(tv, tags))
    ensures JsonName(tv, tags) == tags.get(tv, "json")
         || tags.get(tv, "json")[|JsonName(tv, tags)|] == ','
  {
    SplitFirst(tags.get(tv, "json"), ',');
  }

  /** Only a field with a JSON key can carry an enum list, and only a named one can be required. */
  lemma EnumNeedsJsonName(f: Field, tags: TagSyntax)
    ensures JsonTagOf(f, tags).info.enum != [] || JsonTagOf(f, tags).info.required ==>
      && f.tag.Some? && tags.unquote(f.tag.value).Some?
      && JsonName(tags.unquote(f.tag.value).value, tags) != ""
      && JsonName(tags.unquote(f.tag.value).value, tags) != "-"
  {
  }

  /** A token yields the list of its last `enum=` or `oneof=` match; later tokens win. */
  lemma {:induction false} LastEnumIsLastSetter(tokens: seq<string>, k: nat)
    requires k < |tokens| && TokenEnum(tokens[k]).Some?
    requires forall m :: k < m < |tokens| ==> TokenEnum(tokens[m]).None?
    ensures LastEnum(tokens) == TokenEnum(tokens[k]).value
  {
    if k < |tokens| - 1 {
      var prefix := tokens[..|tokens| - 1];
      assert forall m :: k < m < |prefix| ==> prefix[m] == tokens[m];
      LastEnumIsLastSetter(prefix, k);
    }
  }

  /** Without any `enum=` or `oneof=` token the enum list stays empty. */
  lemma {:induction false} NoSetterNoEnum(tokens: seq<string>)
    requires forall m :: 0 <= m < |tokens| ==> TokenEnum(tokens[m]).None?
    ensures LastEnum(tokens) == []
  {
    if |tokens| > 0 {
      NoSetterNoEnum(tokens[..|tokens| - 1]);
    }
  }

  /** The tag `json:"jsontagname" validate:"required,enum=a b"` (one of the source's test cases). */
  lemma RequiredEnumExample(f: Field, tags: TagSyntax, tv: string)
    requires f.tag.Some? && !AllSpace(f.tag.value) && tags.unquote(f.tag.value) == Some(tv) && !AllSpace(tv)
    requires tags.get(tv, "json") == "jsontagname"
    requires tags.get(tv, "validate") == "required,enum=a b"
    requires tags.get(tv, DescriptionKey) == ""
    ensures JsonTagOf(f, tags) == TagResult(JsonTagInfo("jsontagname", false, true, ["a", "b"], ""), None)
  {
    ExampleTagFacts(tv, tags);
    NamedFieldResult(f, tags, tv);
  }

  /** The whole result for a tag with a JSON key, as the pieces `NamedField` describes. */
  lemma NamedFieldResult(f: Field, tags: TagSyntax, tv: string)
    requires f.tag.Some? && !AllSpace(f.tag.value) && tags.unquote(f.tag.value) == Some(tv)
    requires !AllSpace(tv) && JsonName(tv, tags) != "-" && JsonName(tv, tags) != ""
    ensures JsonTagOf(f, tags) == TagResult(JsonTagInfo(JsonName(tv, tags), false,
      "required" in ValidateTokens(tv, tags), LastEnum(ValidateTokens(tv, tags)), tags.get(tv, DescriptionKey)), None)
  {
    TrimSpaceFacts(f.tag.value);
    TrimSpaceFacts(tv);
  }

  /** The key, the `required` flag and the enum list of the example tag. */
  lemma ExampleTagFacts(tv: string, tags: TagSyntax)
    requires tags.get(tv, "json") == "jsontagname"
    requires tags.get(tv, "validate") == "required,enum=a b"
    ensures JsonName(tv, tags) == "jsontagname"
    ensures "required" in ValidateTokens(tv, tags)
    ensures LastEnum(ValidateTokens(tv, tags)) == ["a", "b"]
  {
    var tokens := ["required", "enum=a b"];
    assert JsonName(tv, tags) == "jsontagname" by {
      SplitNoSeparator("jsontagname", ',');
    }
    assert ValidateTokens(tv, tags) == tokens by {
      ExampleTokens();
    }
    assert LastEnum(tokens) == ["a", "b"] by {
      EnumABTokens();
      LastEnumIsLastSetter(tokens, 1);
    }
    assert tokens[0] == "required";
  }

  lemma ExampleTokens()
    ensures Split("required,enum=a b", ',') == ["required", "enum=a b"]
  {
    var tokens := ["required", "enum=a b"];
    assert ',' !in tokens[0] && ',' !in tokens[1];
    SplitJoin(tokens, ',');
    assert Join(tokens[1..], ',') == "enum=a b";
    assert Join(tokens, ',') == "required,enum=a b";
  }

  /** A key holding a character the token lacks never matches it. */
  lemma NoCaptureWithout(v: string, key: string, c: char)
    requires c in key && c !in v
    ensures Capture(v, key, 0).None?
  {
    var at :| 0 <= at < |key| && key[at] == c;
    forall k | 0 <= k
      ensures !MatchesAt(v, key, k)
    {
      if k + |key| < |v| {
        assert v[k..k + |key|][at] == v[k + at];
      }
    }
  }

  lemma EnumABTokens()
    ensures TokenEnum("enum=a b") == Some(["a", "b"])
  {
    NoCaptureWithout("enum=a b", "oneof=", 'o');
    CaptureAB();
    FieldsAB();
  }

  lemma CaptureAB()
    ensures Capture("enum=a b", "enum=", 0) == Some("a b")
  {
    var v := "enum=a b";
    assert v[0..5] == "enum=";
    assert MatchesAt(v, "enum=", 0);
    assert RunEnd(v, 8) == 8;
    assert RunEnd(v, 5) == 8;
    assert v[5..8] == "a b";
  }

  lemma FieldsAB()
    ensures Fields("a b") == ["a", "b"]
  {
    assert " b"[1..] == "b" && "a b"[1..] == " b" && "b"[1..] == "";
    assert !IsSpace('b');
    assert Runs("") == [""];
    assert ['b'] + "" == "b";
    assert Runs("b") == [['b'] + Runs("")[0]] + Runs("")[1..];
    assert Runs("b") == ["b"];
    assert IsSpace(' ');
    assert Runs(" b") == ["", "b"];
    assert ['a'] + "" == "a";
    assert ["", "b"][1..] == ["b"];
    assert Runs("a b") == [['a'] + Runs(" b")[0]] + Runs(" b")[1..];
    assert Runs("a b") == ["a", "b"];
    assert NonEmpty(["b"]) == ["b"];
  }
}
