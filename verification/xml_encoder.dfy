/**
 * The XML document codec: `prepareSourceArray`, `xmlEncode` and
 * `xmlDecode`. The DOM, base64, `serialize`/`unserialize`, `urlencode` and
 * `preg_match` are parameters (`Externals`); the field-processing settings
 * are a parameter (`Settings`).
 */
module XmlEncoder {
  import opened Wrappers
  import opened OrderedMap
  import opened PhpString
  import opened PhpValue
  import opened PathFlattener
  import opened FieldFilter

  /** `'send'` filters the flat array; any other strategy (`'download'`) does not. */
  datatype Strategy = Send | Download

  /** The `field.processor` parameter: names to ignore or copy, value patterns to copy, key groups. */
  datatype Settings = Settings(
    ignore: seq<string>,
    copyNames: seq<string>,
    copyPatterns: seq<string>,
    keys: seq<Pair<seq<string>>>)

  /** A `<string>` element: its `name`, its optional `key` attribute and its CDATA text. */
  datatype XmlString = XmlString(name: string, key: Option<string>, value: string)

  /** The document `xmlEncode` builds: the leading comments, the `<string>` rows and the `<source>` text. */
  datatype XmlDocument = XmlDocument(comments: seq<string>, strings: seq<XmlString>, source: string)

  /** What the XPath queries of `xmlDecode` see: `name`/text of every `/data/string`, text of every `/data/source`. */
  datatype Dom = Dom(strings: seq<Pair<string>>, sources: seq<string>)

  /** The library functions the codec calls. */
  datatype Externals = Externals(
    urlencode: string -> string,
    pregMatch: (string, string) -> bool,
    unserialize: Tree -> Option<Tree>,
    serialize: seq<Pair<Tree>> -> string,
    base64Encode: string -> string,
    base64Decode: string -> string,
    saveXml: XmlDocument -> string,
    loadXml: string -> Option<Dom>)

  /** Why `xmlDecode` fails: `InvalidXMLException`, or a source blob that is not an array. */
  datatype DecodeError = InvalidXml | SourceNotArray

  const MagicComments: seq<string> := [
    "smartling.translate_paths = data/string",
    "smartling.string_format_paths = html : data/string",
    "smartling.source_key_paths = data/{string.key}",
    "smartling.variants_enabled = true"
  ]

  const LineLength: nat := 80

  // ----- normalizeSource -----

  /** `reset($value)` of a one-element array; any other value as it is. */
  function Collapse(v: Tree): Tree {
    if v.Map? && |v.entries| == 1 then v.entries[0].val else v
  }

  function CollapseEach(ms: seq<Pair<Tree>>): (r: seq<Pair<Tree>>)
    ensures |r| == |ms|
    ensures forall i :: 0 <= i < |ms| ==> r[i] == Pair(ms[i].key, Collapse(ms[i].val))
  {
    seq(|ms|, i requires 0 <= i < |ms| => Pair(ms[i].key, Collapse(ms[i].val)))
  }

  /** The `meta` entry when it is an array. */
  predicate HasMetaArray(src: seq<Pair<Tree>>) {
    IsArrayAt(src, "meta")
  }

  /**
   * `normalizeSource`: every one-element array directly under `meta` is
   * replaced by its element. Binding a reference to a missing `meta`
   * creates it as `null`; a scalar `meta` is left alone.
   */
  function NormalizeSource(src: seq<Pair<Tree>>): (r: seq<Pair<Tree>>)
    ensures HasKey(r, "meta")
    ensures HasKey(src, "meta") ==> Keys(r) == Keys(src)
    ensures !HasKey(src, "meta") ==> r == src + [Pair("meta", Leaf(Null))]
    ensures HasMetaArray(src) ==> Lookup(r, "meta") == Some(Map(CollapseEach(ChildArray(src, "meta"))))
    ensures HasKey(src, "meta") && !HasMetaArray(src) ==> r == src
  {
    if !HasKey(src, "meta") then Assign(src, "meta", Leaf(Null))
    else if HasMetaArray(src) then Assign(src, "meta", Map(CollapseEach(ChildArray(src, "meta"))))
    else src
  }

  /** Normalizing touches nothing but `meta`. */
  lemma NormalizeOnlyMeta(src: seq<Pair<Tree>>, k: string)
    requires k != "meta"
    ensures Lookup(NormalizeSource(src), k) == Lookup(src, k)
  {
    if !HasKey(src, "meta") {
      AssignOther(src, "meta", Leaf(Null), k);
    } else if HasMetaArray(src) {
      AssignOther(src, "meta", Map(CollapseEach(ChildArray(src, "meta"))), k);
    }
  }

  // ----- prepareSourceArray -----

  /** A nested object: an array with both an `entity` and a `meta` key. */
  predicate IsEntity(v: Tree) {
    v.Map? && HasKey(v.entries, "entity") && HasKey(v.entries, "meta")
  }

  /** A flat array of strings as a PHP array value. */
  function FlatToTree(flat: seq<Pair<string>>): (t: Tree)
    ensures t.Map? && Keys(t.entries) == Keys(flat)
  {
    Map(seq(|flat|, i requires 0 <= i < |flat| => Pair(flat[i].key, Leaf(Str(flat[i].val)))))
  }

  /** The four `'send'` filters, in the order the source applies them. */
  function SendFilters(flat: seq<Pair<string>>, settings: Settings, ext: Externals): (r: seq<Pair<string>>)
    requires UniqueKeys(flat)
    ensures UniqueKeys(r) && IsSubseq(r, flat)
    ensures forall p :: p in r <==>
      p in flat
      && !MatchesAnyName(p.key, settings.ignore, ext.urlencode)
      && !MatchesAnyName(p.key, settings.copyNames, ext.urlencode)
      && !MatchesAnyPattern(p.val, settings.copyPatterns, ext.pregMatch)
      && !IsEmptyString(p.val)
  {
    var a := RemoveFields(flat, settings.ignore, ext.urlencode);
    var b := RemoveFields(a, settings.copyNames, ext.urlencode);
    var c := RemoveValuesByRegExp(b, settings.copyPatterns, ext.pregMatch);
    var r := RemoveEmptyFields(c);
    SubseqTrans(b, a, flat);
    SubseqTrans(c, b, flat);
    SubseqTrans(r, c, flat);
    r
  }

  /**
   * `prepareSourceArray($source, $strategy)`: normalize, prepare nested
   * objects under `meta` recursively and unserialize `meta` values, flatten,
   * and for `'send'` apply the filters.
   */
  function PrepareSource(src: seq<Pair<Tree>>, strategy: Strategy, settings: Settings, ext: Externals): (r: seq<Pair<string>>)
    ensures UniqueKeys(r)
    ensures strategy == Download ==> r == Flatten(PreparedTree(src, strategy, settings, ext), "")
    ensures strategy == Send ==> r == SendFilters(Flatten(PreparedTree(src, strategy, settings, ext), ""), settings, ext)
    decreases src, 1
  {
    var flat := Flatten(PreparedTree(src, strategy, settings, ext), "");
    if strategy == Send then SendFilters(flat, settings, ext) else flat
  }

  /** The source array after `normalizeSource` and the `foreach` over `meta`. */
  function PreparedTree(src: seq<Pair<Tree>>, strategy: Strategy, settings: Settings, ext: Externals): (r: seq<Pair<Tree>>)
    ensures HasKey(src, "meta") ==> Keys(r) == Keys(src)
    ensures forall k :: k != "meta" ==> Lookup(r, k) == Lookup(src, k)
    decreases src, 0
  {
    var n := NormalizeSource(src);
    var meta := Lookup(src, "meta");
    forall k | k != "meta" ensures Lookup(n, k) == Lookup(src, k) {
      NormalizeOnlyMeta(src, k);
    }
    if meta.Some? && meta.value.Map? then
      var r := Assign(n, "meta", Map(PrepareMeta(meta.value.entries, strategy, settings, ext)));
      forall k | k != "meta" ensures Lookup(r, k) == Lookup(src, k) {
        AssignOther(n, "meta", Map(PrepareMeta(meta.value.entries, strategy, settings, ext)), k);
      }
      r
    else n
  }

  /**
   * The `foreach ($sourceArray['meta'] as &$value)` loop, applied to the
   * entries of the original `meta` array, each first collapsed as
   * `normalizeSource` does: a nested object is prepared recursively, then a
   * value that unserializes replaces itself.
   */
  function PrepareMeta(ms: seq<Pair<Tree>>, strategy: Strategy, settings: Settings, ext: Externals): (r: seq<Pair<Tree>>)
    ensures Keys(r) == Keys(ms)
    decreases ms, 2
  {
    if ms == [] then []
    else
      var v := Collapse(ms[0].val);
      var v' := if IsEntity(v) then FlatToTree(PrepareSource(v.entries, strategy, settings, ext)) else v;
      var rest := PrepareMeta(ms[1..], strategy, settings, ext);
      KeysCons(Pair(ms[0].key, Unserialized(v', ext)), rest);
      KeysCons(ms[0], ms[1..]);
      assert ms == [ms[0]] + ms[1..];
      [Pair(ms[0].key, Unserialized(v', ext))] + rest
  }

  /**
   * `if (false !== ($tmp = @unserialize($value))) $value = $tmp;` under
   * PHP 7: `unserialize` of an array (a nested object just prepared, or any
   * other array) warns and returns `null`, which is not `false`, so the
   * value becomes `null`; a scalar is replaced when the library call does
   * not return `false`.
   */
  function Unserialized(v: Tree, ext: Externals): (r: Tree)
    ensures v.Map? ==> r == Leaf(Null)
    ensures v.Leaf? && ext.unserialize(v).None? ==> r == v
  {
    if v.Map? then Leaf(Null)
    else match ext.unserialize(v) case Some(t) => t case None => v
  }

  /**
   * The `foreach` over `meta` gives the same values for both strategies: a
   * nested object is prepared differently for `'send'`, but becomes `null`
   * through `unserialize` either way.
   */
  lemma {:induction false} PrepareMetaPlain(ms: seq<Pair<Tree>>, settings: Settings, ext: Externals)
    ensures PrepareMeta(ms, Send, settings, ext) == PrepareMeta(ms, Download, settings, ext)
    decreases |ms|
  {
    if ms != [] {
      PrepareMetaPlain(ms[1..], settings, ext);
    }
  }

  /**
   * The `'send'` array is the `'download'` array with the four filters
   * applied; in particular every sent entry is an entry of the download
   * array, in the same order.
   */
  lemma SendFiltersDownload(src: seq<Pair<Tree>>, settings: Settings, ext: Externals)
    ensures PrepareSource(src, Send, settings, ext)
         == SendFilters(PrepareSource(src, Download, settings, ext), settings, ext)
    ensures IsSubseq(PrepareSource(src, Send, settings, ext), PrepareSource(src, Download, settings, ext))
  {
    if HasMetaArray(src) {
      PrepareMetaPlain(ChildArray(src, "meta"), settings, ext);
    }
    assert PreparedTree(src, Send, settings, ext) == PreparedTree(src, Download, settings, ext);
  }

  // ----- encodeSource / decodeSource -----

  /** `encodeSource`: the base64 of the serialized array in lines of 80 characters joined by "\n". */
  function EncodeSource(src: seq<Pair<Tree>>, ext: Externals): string {
    Implode(StrSplit(ext.base64Encode(ext.serialize(src)), LineLength), "\n")
  }

  /**
   * `decodeSource`: `base64_decode` in its default mode skips the line
   * breaks, then the text is unserialized.
   */
  function DecodeSource(text: string, ext: Externals): Option<Tree> {
    ext.unserialize(Leaf(Str(ext.base64Decode(Strip(text, '\n')))))
  }

  /** The lines of the encoded source are at most 80 characters and rejoin to the payload. */
  lemma EncodeSourceLines(src: seq<Pair<Tree>>, ext: Externals)
    requires '\n' !in ext.base64Encode(ext.serialize(src))
    ensures var lines := StrSplit(ext.base64Encode(ext.serialize(src)), LineLength);
      EncodeSource(src, ext) == Implode(lines, "\n") &&
      (forall i :: 0 <= i < |lines| ==> |lines[i]| <= LineLength && '\n' !in lines[i]) &&
      Strip(EncodeSource(src, ext), '\n') == ext.base64Encode(ext.serialize(src))
  {
    var payload := ext.base64Encode(ext.serialize(src));
    var lines := StrSplit(payload, LineLength);
    forall i | 0 <= i < |lines| ensures '\n' !in lines[i] {
      ConcatMember(lines, i);
    }
    StripImplode(lines, '\n');
  }

  lemma {:induction false} ConcatMember(parts: seq<string>, i: nat)
    requires i < |parts|
    ensures forall c :: c in parts[i] ==> c in Concat(parts)
    decreases |parts|
  {
    if i > 0 {
      ConcatMember(parts[1..], i - 1);
    }
  }

  /** The assumptions under which the library calls invert each other. */
  ghost predicate RoundTripExternals(ext: Externals) {
    (forall s :: ext.base64Decode(ext.base64Encode(s)) == s) &&
    (forall s :: '\n' !in ext.base64Encode(s)) &&
    (forall es :: ext.unserialize(Leaf(Str(ext.serialize(es)))) == Some(Map(es))) &&
    (forall d :: ext.loadXml(ext.saveXml(d)) == Some(DomOf(d)))
  }

  /** `decodeSource(encodeSource($src)) == $src`. */
  lemma SourceRoundTrip(src: seq<Pair<Tree>>, ext: Externals)
    requires RoundTripExternals(ext)
    ensures DecodeSource(EncodeSource(src, ext), ext) == Some(Map(src))
  {
    EncodeSourceLines(src, ext);
  }

  // ----- xmlEncode -----

  /**
   * The `key` attribute of `rowToXMLNode`: every key group with a field
   * found in the name sets it again, so the last such group wins.
   */
  function KeyAttribute(name: string, keys: seq<Pair<seq<string>>>): (r: Option<string>)
    ensures r.None? <==> forall i :: 0 <= i < |keys| ==> !GroupMatches(name, keys[i].val)
    ensures r.Some? ==> exists i :: 0 <= i < |keys| && LastMatchingGroup(name, keys, i) && keys[i].key == r.value
    decreases |keys|
  {
    if keys == [] then None
    else if GroupMatches(name, keys[|keys| - 1].val) then
      assert LastMatchingGroup(name, keys, |keys| - 1);
      Some(keys[|keys| - 1].key)
    else
      var r := KeyAttribute(name, keys[..|keys| - 1]);
      KeyAttributeExtend(name, keys, r);
      r
  }

  /** A group that does not match, appended to the groups, changes neither which group matches last nor whether one does. */
  lemma KeyAttributeExtend(name: string, keys: seq<Pair<seq<string>>>, r: Option<string>)
    requires keys != [] && !GroupMatches(name, keys[|keys| - 1].val)
    requires var front := keys[..|keys| - 1];
      (r.None? <==> forall i :: 0 <= i < |front| ==> !GroupMatches(name, front[i].val)) &&
      (r.Some? ==> exists i :: 0 <= i < |front| && LastMatchingGroup(name, front, i) && front[i].key == r.value)
    ensures r.None? <==> forall i :: 0 <= i < |keys| ==> !GroupMatches(name, keys[i].val)
    ensures r.Some? ==> exists i :: 0 <= i < |keys| && LastMatchingGroup(name, keys, i) && keys[i].key == r.value
  {
    var front := keys[..|keys| - 1];
    assert forall i :: 0 <= i < |front| ==> front[i] == keys[i];
    if r.Some? {
      var i :| 0 <= i < |front| && LastMatchingGroup(name, front, i) && front[i].key == r.value;
      assert LastMatchingGroup(name, keys, i);
    }
  }

  /** Group `i` matches the name and no later group does. */
  predicate LastMatchingGroup(name: string, keys: seq<Pair<seq<string>>>, i: nat)
    requires i < |keys|
  {
    GroupMatches(name, keys[i].val) && forall j :: i < j < |keys| ==> !GroupMatches(name, keys[j].val)
  }

  /** Some field of the group occurs in the name. */
  predicate GroupMatches(name: string, fields: seq<string>) {
    exists j :: 0 <= j < |fields| && StrposFound(name, fields[j])
  }

  /** `rowToXMLNode($document, $name, $value, $keySettings)`. */
  function RowToXmlNode(name: string, value: string, keys: seq<Pair<seq<string>>>): (n: XmlString)
    ensures n.name == name && n.value == value
    ensures n.key.Some? <==> exists i :: 0 <= i < |keys| && GroupMatches(name, keys[i].val)
  {
    XmlString(name, KeyAttribute(name, keys), value)
  }

  function Rows(flat: seq<Pair<string>>, keys: seq<Pair<seq<string>>>): (rows: seq<XmlString>)
    ensures |rows| == |flat|
    ensures forall i :: 0 <= i < |flat| ==> rows[i] == RowToXmlNode(flat[i].key, flat[i].val, keys)
  {
    seq(|flat|, i requires 0 <= i < |flat| => RowToXmlNode(flat[i].key, flat[i].val, keys))
  }

  /** The comments of `setTranslationComments`, each padded with one space on both sides. */
  function Comments(version: string): (cs: seq<string>)
    ensures |cs| == |MagicComments| + 1
    ensures forall i :: 0 <= i < |MagicComments| ==> cs[i] == " " + MagicComments[i] + " "
    ensures cs[|MagicComments|] == " Smartling Wordpress Connector v. " + version + " "
  {
    seq(|MagicComments|, i requires 0 <= i < |MagicComments| => " " + MagicComments[i] + " ")
      + [" Smartling Wordpress Connector v. " + version + " "]
  }

  /**
   * The comments before the version are the same for every version, and the
   * version comment tells versions apart: the comments identify the
   * connector version that wrote the document.
   */
  lemma CommentsIdentifyVersion(v1: string, v2: string)
    ensures Comments(v1)[..|MagicComments|] == Comments(v2)[..|MagicComments|]
    ensures Comments(v1) == Comments(v2) <==> v1 == v2
  {
    var prefix := " Smartling Wordpress Connector v. ";
    if Comments(v1) == Comments(v2) {
      var c1 := Comments(v1)[|MagicComments|];
      assert c1 == prefix + v1 + " " == prefix + v2 + " ";
      assert v1 == c1[|prefix|..|c1| - 1];
    }
  }

  /**
   * The document `xmlEncode` builds: one `<string>` per entry of the
   * `'send'`-prepared array, in order, then the encoded original source.
   */
  function EncodeDocument(src: seq<Pair<Tree>>, settings: Settings, ext: Externals, version: string): (d: XmlDocument)
    ensures |d.strings| == |PrepareSource(src, Send, settings, ext)|
    ensures forall i :: 0 <= i < |d.strings| ==>
      d.strings[i].name == PrepareSource(src, Send, settings, ext)[i].key &&
      d.strings[i].value == PrepareSource(src, Send, settings, ext)[i].val
    ensures d.source == EncodeSource(src, ext)
  {
    XmlDocument(Comments(version), Rows(PrepareSource(src, Send, settings, ext), settings.keys), EncodeSource(src, ext))
  }

  /** `xmlEncode($source)`. */
  function XmlEncode(src: seq<Pair<Tree>>, settings: Settings, ext: Externals, version: string): string {
    ext.saveXml(EncodeDocument(src, settings, ext, version))
  }

  /** What the decoder's XPath queries see in a document the encoder built. */
  function DomOf(d: XmlDocument): (dom: Dom)
    ensures dom.sources == [d.source]
    ensures |dom.strings| == |d.strings|
    ensures forall i :: 0 <= i < |d.strings| ==> dom.strings[i] == Pair(d.strings[i].name, d.strings[i].value)
  {
    Dom(seq(|d.strings|, i requires 0 <= i < |d.strings| => Pair(d.strings[i].name, d.strings[i].value)), [d.source])
  }

  // ----- xmlDecode -----

  /** `$value += 0` on a numeric string; other strings stay strings. */
  function CoerceValue(s: string): (v: Scalar)
    ensures v.Int? <==> IsIntString(s)
    ensures v.Str? ==> v.s == s
    ensures v.Int? ==> v == Int(ParseInt(s))
  {
    if IsIntString(s) then Int(ParseInt(s)) else Str(s)
  }

  /** A printed integer is coerced back to that integer. */
  lemma CoercePrinted(i: int)
    ensures CoerceValue(IntToString(i)) == Int(i)
  {
    IntStringRoundTrip(i);
  }

  /** The numeric-coercion loop over the merged flat array. */
  function Coerce(m: seq<Pair<string>>): (r: seq<Pair<Scalar>>)
    ensures Keys(r) == Keys(m)
    ensures forall k :: Lookup(r, k) == if HasKey(m, k) then Some(CoerceValue(Lookup(m, k).value)) else None
  {
    var r := seq(|m|, i requires 0 <= i < |m| => Pair(m[i].key, CoerceValue(m[i].val)));
    forall k ensures Lookup(r, k) == if HasKey(m, k) then Some(CoerceValue(Lookup(m, k).value)) else None {
      CoerceLookup(m, k);
    }
    r
  }

  lemma {:induction false} CoerceLookup(m: seq<Pair<string>>, k: string)
    ensures var r := seq(|m|, i requires 0 <= i < |m| => Pair(m[i].key, CoerceValue(m[i].val)));
      Lookup(r, k) == if HasKey(m, k) then Some(CoerceValue(Lookup(m, k).value)) else None
    decreases |m|
  {
    if m != [] {
      CoerceLookup(m[1..], k);
      var r := seq(|m|, i requires 0 <= i < |m| => Pair(m[i].key, CoerceValue(m[i].val)));
      var r' := seq(|m[1..]|, i requires 0 <= i < |m[1..]| => Pair(m[1..][i].key, CoerceValue(m[1..][i].val)));
      assert r[1..] == r';
    }
  }

  /**
   * The merge of `xmlDecode`: the translated strings overwrite their paths
   * in the download-prepared source, numeric strings are coerced, and
   * ignored fields are removed before structurizing.
   */
  function DecodeMerge(flatSource: seq<Pair<string>>, fields: seq<Pair<string>>, settings: Settings, ext: Externals): (r: seq<Pair<Scalar>>)
    requires UniqueKeys(flatSource)
    ensures UniqueKeys(r) && IsSubseq(r, Coerce(AssignAll(flatSource, fields)))
    ensures forall p :: p in r <==> p in Coerce(AssignAll(flatSource, fields)) && !MatchesAnyName(p.key, settings.ignore, ext.urlencode)
  {
    var merged := AssignAll(flatSource, fields);
    AssignAllKeys(flatSource, fields);
    RemoveFields(Coerce(merged), settings.ignore, ext.urlencode)
  }

  /**
   * Every decoded string wins over the source at its path, every other path
   * keeps its source value, and values are coerced.
   */
  lemma DecodeMergeLookup(flatSource: seq<Pair<string>>, fields: seq<Pair<string>>, k: string)
    ensures Lookup(Coerce(AssignAll(flatSource, fields)), k)
         == if HasKey(fields, k) then Some(CoerceValue(LastValue(fields, k)))
            else if HasKey(flatSource, k) then Some(CoerceValue(Get(flatSource, k)))
            else None
  {
    AssignAllLookup(flatSource, fields, k);
  }

  /**
   * `xmlDecode($content)`: unparsable input raises `InvalidXMLException`; a
   * source blob that does not unserialize to an array makes
   * `normalizeSource` fail its `array` type check.
   */
  function XmlDecode(content: string, settings: Settings, ext: Externals): (r: Result<seq<Pair<Tree>>, DecodeError>)
    ensures ext.loadXml(content).None? ==> r == Failure(InvalidXml)
    ensures r.Failure? && ext.loadXml(content).Some? ==> r.error == SourceNotArray
  {
    match ext.loadXml(content)
    case None => Failure(InvalidXml)
    case Some(dom) =>
      var fields := AssignAll([], dom.strings);
      var text := if dom.sources == [] then "" else dom.sources[0];
      match DecodeSource(text, ext)
      case Some(Map(src)) =>
        var flatSource := PrepareSource(src, Download, settings, ext);
        Success(Structurize(DecodeMerge(flatSource, fields, settings, ext)))
      case _ => Failure(SourceNotArray)
  }

  /**
   * Decoding a document the encoder produced, before any translation,
   * gives back the structure of the source's own download-prepared array,
   * coerced and without its ignored fields.
   */
  lemma DecodeOfEncode(src: seq<Pair<Tree>>, settings: Settings, ext: Externals, version: string)
    requires RoundTripExternals(ext)
    ensures XmlDecode(XmlEncode(src, settings, ext, version), settings, ext)
         == Success(Structurize(RemoveFields(Coerce(PrepareSource(src, Download, settings, ext)), settings.ignore, ext.urlencode)))
  {
    EncodedDecodes(src, settings, ext, version);
    SendIsOwnMerge(src, settings, ext);
    MergeSendIntoDownload(src, settings, ext);
    DecodeMergeUnchanged(PrepareSource(src, Download, settings, ext), PrepareSource(src, Send, settings, ext), settings, ext);
  }

  /** Decoding an encoded document merges its `'send'` strings into the `'download'` array. */
  lemma EncodedDecodes(src: seq<Pair<Tree>>, settings: Settings, ext: Externals, version: string)
    requires RoundTripExternals(ext)
    ensures XmlDecode(XmlEncode(src, settings, ext, version), settings, ext)
         == Success(Structurize(DecodeMerge(PrepareSource(src, Download, settings, ext), AssignAll([], PrepareSource(src, Send, settings, ext)), settings, ext)))
  {
    var d := EncodeDocument(src, settings, ext, version);
    assert ext.loadXml(XmlEncode(src, settings, ext, version)) == Some(DomOf(d));
    EncodedStrings(src, settings, ext, version);
    SourceRoundTrip(src, ext);
    XmlDecodeOfDom(XmlEncode(src, settings, ext, version), DomOf(d), src, settings, ext);
  }

  /** Assigning the `'send'` strings to an empty array rebuilds them unchanged. */
  lemma SendIsOwnMerge(src: seq<Pair<Tree>>, settings: Settings, ext: Externals)
    ensures AssignAll([], PrepareSource(src, Send, settings, ext)) == PrepareSource(src, Send, settings, ext)
  {
    var send := PrepareSource(src, Send, settings, ext);
    assert [] + send == send;
    AssignAllFresh([], send);
  }

  /** The strings the decoder finds in an encoded document are the `'send'`-prepared array. */
  lemma EncodedStrings(src: seq<Pair<Tree>>, settings: Settings, ext: Externals, version: string)
    ensures DomOf(EncodeDocument(src, settings, ext, version)).strings == PrepareSource(src, Send, settings, ext)
    ensures DomOf(EncodeDocument(src, settings, ext, version)).sources == [EncodeSource(src, ext)]
  {
  }

  /** `xmlDecode` on a document whose first source blob decodes to the array `src`. */
  lemma XmlDecodeOfDom(content: string, dom: Dom, src: seq<Pair<Tree>>, settings: Settings, ext: Externals)
    requires ext.loadXml(content) == Some(dom)
    requires dom.sources != [] && DecodeSource(dom.sources[0], ext) == Some(Map(src))
    ensures XmlDecode(content, settings, ext)
         == Success(Structurize(DecodeMerge(PrepareSource(src, Download, settings, ext), AssignAll([], dom.strings), settings, ext)))
  {
  }

  /** Merging strings that the source already holds leaves only the coercion and the field removal. */
  lemma DecodeMergeUnchanged(flatSource: seq<Pair<string>>, fields: seq<Pair<string>>, settings: Settings, ext: Externals)
    requires UniqueKeys(flatSource)
    ensures AssignAll(flatSource, fields) == flatSource ==>
      DecodeMerge(flatSource, fields, settings, ext) == RemoveFields(Coerce(flatSource), settings.ignore, ext.urlencode)
  {
  }

  /** Writing the `'send'` strings back over the `'download'` array changes nothing. */
  lemma MergeSendIntoDownload(src: seq<Pair<Tree>>, settings: Settings, ext: Externals)
    ensures var download := PrepareSource(src, Download, settings, ext);
      AssignAll(download, PrepareSource(src, Send, settings, ext)) == download
  {
    var send := PrepareSource(src, Send, settings, ext);
    var download := PrepareSource(src, Download, settings, ext);
    SendFiltersDownload(src, settings, ext);
    SubseqMembers(send, download);
    AssignAllOfSubmap(download, send);
  }
}
