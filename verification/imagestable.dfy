/** `Parser::parseImagesTable`: the body of the `images_table` block is
    rendered once per item of the document, each time after the per-item tags
    have been written into the shared tag map. The pixel pipeline that turns an
    image into data words and their printed form, and the text codec, are
    parameters of the item source. */
module ImagesTable {
  import opened Text
  import opened Format
  import opened Substitution
  import opened CharCode

  datatype Image = Image(width: nat, height: nat, pixels: seq<bv32>)

  /** One entry of the document: its key (the character it draws) and image. */
  datatype Item = Item(key: string, image: Image)

  /** What the conversion pipeline makes of an image: the data words and
      their printed form. */
  datatype Packed = Packed(words: seq<bv32>, text: string)

  /** The document's entries in iteration order, the conversion pipeline, the
      codec of the configured encoding, and the byte-order-mark setting. */
  datatype Source = Source(
    items: seq<Item>,
    convert: Image -> Packed,
    codec: char -> seq<bv8>,
    encoding: string,
    bom: bool)

  /** The tags written for every item. */
  const ItemKeys: set<string> := {
    "width", "height", "imageDataIndent", "blocksCount", "imageData",
    "charCode", "comma", "charText"
  }

  /** The tags this operation writes: the item count and the per-item tags. */
  const ImageKeys: set<string> := ItemKeys + {"imagesCount"}

  /** Replacing every `@` of a key removes all of them. */
  lemma {:induction false} ReplaceAtRemovesAt(s: string)
    ensures '@' !in ReplaceAll(s, "@", "(a)")
    decreases |s|
  {
    if |s| >= 1 {
      if s[..1] == "@" {
        ReplaceAtRemovesAt(s[1..]);
      } else {
        ReplaceAtRemovesAt(s[1..]);
        assert s[0] != '@' by { assert s[..1][0] == s[0]; }
      }
    }
  }

  /** The display form of a key: with every `@` spelled `(a)` when it has
      one, so that it cannot be taken for a marker; otherwise just its first
      character. */
  function CharText(key: string): (r: string)
    requires |key| >= 1
    ensures '@' !in r
    ensures '@' in key ==> r == ExpandChar(key, '@', "(a)")
    ensures '@' !in key ==> r == key[..1]
  {
    if Contains(key, "@") then
      ReplaceAtRemovesAt(key);
      ReplaceAllChar(key, '@', "(a)");
      var i :| OccursAt(key, "@", i);
      assert key[i] == "@"[0];
      ReplaceAll(key, "@", "(a)")
    else
      assert forall i :: 0 <= i < |key| && key[i] == '@' ==> OccursAt(key, "@", i) by {
        forall i | 0 <= i < |key| && key[i] == '@'
          ensures OccursAt(key, "@", i)
        {
          assert key[i..i + 1] == [key[i]];
        }
      }
      key[..1]
  }

  /** The separator after item `i` of `n`: a comma except after the last. */
  function Comma(i: nat, n: nat): (r: string)
    requires i < n
    ensures r == "" <==> i == n - 1
    ensures r != "" ==> r == ","
  {
    if i + 1 < n then "," else ""
  }

  /** The source's conditions: every key has a first character, and the
      texts written into tags hold no marker character (so that the flat
      substitution of the block body ends). */
  predicate SourceOk(src: Source)
  {
    forall i :: 0 <= i < |src.items| ==>
      && |src.items[i].key| >= 1
      && NoMarkerChars(CharText(src.items[i].key))
      && NoMarkerChars(src.convert(src.items[i].image).text)
  }

  /** The indentation the printed data continues with after each line break;
      reading it through the map's index operator inserts an empty one. */
  function Indent(tags: Tags): string
  {
    if "imageDataIndent" in tags then tags["imageDataIndent"] else ""
  }

  /** What one item contributes to its tags, before the indentation is known:
      its size, the number and printed form of its data words, the code of its
      character, the separator after it and its display text. */
  datatype ItemFields = ItemFields(
    width: string,
    height: string,
    blocksCount: string,
    data: string,
    charCode: string,
    comma: string,
    charText: string)

  /** The fields of item `i`. */
  function Fields(src: Source, i: nat): ItemFields
    requires i < |src.items| && |src.items[i].key| >= 1
  {
    var item := src.items[i];
    var packed := src.convert(item.image);
    ItemFields(
      Decimal(item.image.width),
      Decimal(item.image.height),
      Decimal(|packed.words|),
      packed.text,
      HexCode(src.codec(item.key[0]), src.encoding, src.bom),
      Comma(i, |src.items|),
      CharText(item.key))
  }

  /** The fields of every item, in iteration order. */
  function AllFields(src: Source): (fs: seq<ItemFields>)
    requires SourceOk(src)
    ensures |fs| == |src.items|
    ensures forall i :: 0 <= i < |fs| ==> fs[i] == Fields(src, i)
  {
    seq(|src.items|, i requires 0 <= i < |src.items| && SourceOk(src) => Fields(src, i))
  }

  predicate FieldsFree(f: ItemFields)
  {
    && NoMarkerChars(f.width) && NoMarkerChars(f.height) && NoMarkerChars(f.blocksCount)
    && NoMarkerChars(f.data) && NoMarkerChars(f.charCode) && NoMarkerChars(f.comma)
    && NoMarkerChars(f.charText)
  }

  predicate AllFieldsFree(fs: seq<ItemFields>)
  {
    forall i :: 0 <= i < |fs| ==> FieldsFree(fs[i])
  }

  /** Under the source's conditions no field holds a marker character. */
  lemma AllFieldsOfSourceFree(src: Source)
    requires SourceOk(src)
    ensures AllFieldsFree(AllFields(src))
  {
    var fs := AllFields(src);
    forall i | 0 <= i < |fs|
      ensures FieldsFree(fs[i])
    {
      var item := src.items[i];
      DecimalFree(item.image.width);
      DecimalFree(item.image.height);
      DecimalFree(|src.convert(item.image).words|);
      HexStringFree(HexCode(src.codec(item.key[0]), src.encoding, src.bom));
      assert NoMarkerChars(",") && NoMarkerChars("");
    }
  }

  /** The value a per-item tag takes, given the indentation in force. */
  function FieldValue(f: ItemFields, indent: string, key: string): string
  {
    if key == "width" then f.width
    else if key == "height" then f.height
    else if key == "imageDataIndent" then indent
    else if key == "blocksCount" then f.blocksCount
    else if key == "imageData" then ReplaceAll(f.data, "\n", "\n" + indent)
    else if key == "charCode" then f.charCode
    else if key == "comma" then f.comma
    else f.charText
  }

  lemma FieldValueFree(f: ItemFields, indent: string, key: string)
    requires FieldsFree(f) && NoMarkerChars(indent)
    ensures NoMarkerChars(FieldValue(f, indent, key))
  {
    if key == "imageData" {
      assert NoMarkerChars("\n");
      NoMarkerCharsConcat("\n", indent);
      ReplaceAllNoMarkerChars(f.data, "\n", "\n" + indent);
    }
  }

  /** The per-item tags of one item. */
  function ItemMap(indent: string, f: ItemFields): (m: Tags)
    ensures m.Keys == ItemKeys
    ensures m["imageDataIndent"] == indent
  {
    map k | k in ItemKeys :: FieldValue(f, indent, k)
  }

  /** The tag map while an item is rendered: its tags written over the map,
      everything else kept. The indentation is read from the map itself. */
  function ItemTags(tags: Tags, f: ItemFields): (r: Tags)
    ensures r.Keys == tags.Keys + ItemKeys
    ensures forall k :: k in tags && k !in ItemKeys ==> r[k] == tags[k]
  {
    tags + ItemMap(Indent(tags), f)
  }

  lemma ItemTagsFree(tags: Tags, f: ItemFields)
    requires ValuesFree(tags) && FieldsFree(f)
    ensures ValuesFree(ItemTags(tags, f))
  {
    var indent := Indent(tags);
    var m := ItemMap(indent, f);
    forall k | k in m
      ensures NoMarkerChars(m[k])
    {
      FieldValueFree(f, indent, k);
    }
  }

  /** The per-item tags of item `i` read back: each describes that item. */
  lemma ItemTagsDescribeItem(tags: Tags, src: Source, i: nat)
    requires i < |src.items| && |src.items[i].key| >= 1
    ensures var r := ItemTags(tags, Fields(src, i));
      var item := src.items[i];
      && IsDecimalText(r["width"]) && DecimalValue(r["width"]) == item.image.width
      && IsDecimalText(r["height"]) && DecimalValue(r["height"]) == item.image.height
      && IsDecimalText(r["blocksCount"])
      && DecimalValue(r["blocksCount"]) == |src.convert(item.image).words|
      && r["imageDataIndent"] == Indent(tags)
      && r["imageData"] == ExpandChar(src.convert(item.image).text, '\n', "\n" + Indent(tags))
      && r["charCode"] == HexCode(src.codec(item.key[0]), src.encoding, src.bom)
      && (r["comma"] == "" <==> i == |src.items| - 1)
      && (i < |src.items| - 1 ==> r["comma"] == ",")
      && ('@' in item.key ==> r["charText"] == ExpandChar(item.key, '@', "(a)"))
      && ('@' !in item.key ==> r["charText"] == item.key[..1])
  {
    ReplaceAllChar(src.convert(src.items[i].image).text, '\n', "\n" + Indent(tags));
    DecimalRoundTrip(src.items[i].image.width);
    DecimalRoundTrip(src.items[i].image.height);
    DecimalRoundTrip(|src.convert(src.items[i].image).words|);
  }

  /** The data text is indented only where the pipeline broke lines. */
  lemma ImageDataUnbroken(tags: Tags, f: ItemFields)
    requires '\n' !in f.data
    ensures ItemTags(tags, f)["imageData"] == f.data
  {
    assert forall k :: OccursAt(f.data, "\n", k) ==> f.data[k] == '\n';
    ReplaceAllAbsent(f.data, "\n", "\n" + Indent(tags));
  }

  /** Writing the tags of one item over those of another gives the tags of the
      second: nothing of an earlier item survives into a later one. */
  lemma ItemTagsAbsorb(tags: Tags, g: ItemFields, f: ItemFields)
    ensures ItemTags(ItemTags(tags, g), f) == ItemTags(tags, f)
  {
    var mg := ItemMap(Indent(tags), g);
    assert Indent(tags + mg) == Indent(tags);
    OverlayAbsorb(tags, mg, ItemMap(Indent(tags), f));
  }

  /** Writing `c` over `a + b` forgets `b` when `c` covers all of its keys. */
  lemma OverlayAbsorb(a: Tags, b: Tags, c: Tags)
    requires b.Keys <= c.Keys
    ensures (a + b) + c == a + c
  {
  }

  /** The tag map before the first item: the item count written in. */
  function Base(tags: Tags, src: Source): (r: Tags)
    ensures ValuesFree(tags) ==> ValuesFree(r)
  {
    DecimalFree(|src.items|);
    tags["imagesCount" := Decimal(|src.items|)]
  }

  /** A rendered body and the tag map after it. */
  datatype Output = Output(text: string, tags: Tags)

  /** Items `i ..` rendered in turn, the tags of each written over the map
      left by the one before. */
  function Items(content: string, tags: Tags, fs: seq<ItemFields>, i: nat): (r: Output)
    requires i <= |fs| && ValuesFree(tags) && AllFieldsFree(fs)
    ensures ValuesFree(r.tags)
    decreases |fs| - i
  {
    if i == |fs| then Output("", tags)
    else
      var t := ItemTags(tags, fs[i]);
      ItemTagsFree(tags, fs[i]);
      var rest := Items(content, t, fs, i + 1);
      Output("\n" + Simple(content, t) + rest.text, rest.tags)
  }

  /** After the items the map holds the tags of the last one. */
  lemma {:induction false} ItemsFinalTags(content: string, tags: Tags, fs: seq<ItemFields>, i: nat)
    requires i < |fs| && ValuesFree(tags) && AllFieldsFree(fs)
    ensures Items(content, tags, fs, i).tags == ItemTags(tags, fs[|fs| - 1])
    decreases |fs| - i
  {
    var t := ItemTags(tags, fs[i]);
    ItemTagsFree(tags, fs[i]);
    if i + 1 < |fs| {
      ItemsFinalTags(content, t, fs, i + 1);
      ItemTagsAbsorb(tags, fs[i], fs[|fs| - 1]);
    } else {
      assert Items(content, t, fs, i + 1).tags == t;
    }
  }

  /** `parseImagesTable`: the item count, then every item's expansion, each
      preceded by a line break. */
  function ExpandImages(content: string, tags: Tags, src: Source): (r: Output)
    requires ValuesFree(tags) && SourceOk(src)
    ensures ValuesFree(r.tags)
    ensures forall k :: k !in ImageKeys ==> (k in r.tags <==> k in tags)
    ensures forall k :: k in tags && k !in ImageKeys ==> r.tags[k] == tags[k]
    ensures "imagesCount" in r.tags
    ensures IsDecimalText(r.tags["imagesCount"]) && DecimalValue(r.tags["imagesCount"]) == |src.items|
    ensures |src.items| == 0 ==> r.text == "" && r.tags == tags["imagesCount" := "0"]
    ensures |src.items| > 0 ==> r.tags == ItemTags(Base(tags, src), Fields(src, |src.items| - 1))
  {
    var base := Base(tags, src);
    var fs := AllFields(src);
    DecimalRoundTrip(|src.items|);
    AllFieldsOfSourceFree(src);
    if |src.items| > 0 then
      ItemsFinalTags(content, base, fs, 0);
      BaseFrame(tags, src, fs[|fs| - 1]);
      Items(content, base, fs, 0)
    else
      assert Decimal(0) == "0";
      Items(content, base, fs, 0)
  }

  /** The tags of an item written over the base map keep the item count and
      every tag this operation does not write. */
  lemma BaseFrame(tags: Tags, src: Source, f: ItemFields)
    ensures var r := ItemTags(Base(tags, src), f);
      && (forall k :: k !in ImageKeys ==> (k in r <==> k in tags))
      && (forall k :: k in tags && k !in ImageKeys ==> r[k] == tags[k])
      && "imagesCount" in r && r["imagesCount"] == Decimal(|src.items|)
  {
    assert "imagesCount" !in ItemKeys;
  }

  /* ---------------- the expansion, item by item ---------------- */

  /** Reference: items `i ..` each rendered against the same starting map. */
  function Expansions(content: string, base: Tags, fs: seq<ItemFields>, i: nat): string
    requires i <= |fs| && ValuesFree(base) && AllFieldsFree(fs)
    decreases |fs| - i
  {
    if i == |fs| then ""
    else
      ItemTagsFree(base, fs[i]);
      "\n" + Simple(content, ItemTags(base, fs[i])) + Expansions(content, base, fs, i + 1)
  }

  /** Once an item has been rendered, the remaining items are rendered as if
      each were the first. */
  lemma {:induction false} ItemsAfterOne(content: string, base: Tags, g: ItemFields, fs: seq<ItemFields>, i: nat)
    requires i <= |fs| && ValuesFree(base) && FieldsFree(g) && AllFieldsFree(fs)
    ensures ValuesFree(ItemTags(base, g))
    ensures Items(content, ItemTags(base, g), fs, i).text == Expansions(content, base, fs, i)
    decreases |fs| - i
  {
    var t := ItemTags(base, g);
    ItemTagsFree(base, g);
    if i < |fs| {
      var u := ItemTags(base, fs[i]);
      ItemTagsFree(base, fs[i]);
      ItemTagsAbsorb(base, g, fs[i]);
      ItemsAfterOne(content, base, fs[i], fs, i + 1);
      assert Items(content, t, fs, i).text
          == "\n" + Simple(content, u) + Items(content, u, fs, i + 1).text;
    }
  }

  /** The output of the block is the expansion of every item against the map
      holding only the item count: the per-item tags of one item never leak
      into the rendering of the next. */
  lemma ExpandImagesIsExpansions(content: string, tags: Tags, src: Source)
    requires ValuesFree(tags) && SourceOk(src)
    ensures AllFieldsFree(AllFields(src))
    ensures ExpandImages(content, tags, src).text == Expansions(content, Base(tags, src), AllFields(src), 0)
  {
    AllFieldsOfSourceFree(src);
    var fs := AllFields(src);
    if |fs| > 0 {
      ItemsAfterOne(content, Base(tags, src), fs[0], fs, 1);
    }
  }
}
