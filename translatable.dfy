/**
 * The `Translatable` behaviour of an Eloquent model: after a save, every
 * translatable attribute whose value is a `locale => text` array is written,
 * one locale at a time, into the bundle file of that locale, class and id;
 * a read looks one key up in one bundle file.
 */
module Translatable {
  import opened Wrappers
  import opened SlotKeys
  import opened Bundles
  import opened BundleStore

  /** The value of one model attribute, as far as the save hook tells values apart. */
  datatype AttributeValue =
    | Null
    | Scalar(text: string)
    | Array(entries: seq<(string, string)>)  // locale => translation, in array order

  /**
   * What the engine sees of a model: its class base name, its primary key
   * (null before one is assigned), its `translatable` property when the
   * class declares one, and its attributes.
   */
  datatype Model = Model(
    cls: string,
    key: Option<string>,
    translatable: Option<seq<string>>,
    attributes: map<string, AttributeValue>)

  /** The declared translatable attributes, or none when the class declares none. */
  function GetTranslatableAttributes(m: Model): (attrs: seq<string>)
    ensures m.translatable.Some? ==> attrs == m.translatable.value
    ensures m.translatable.None? ==> attrs == []
  {
    m.translatable.GetOr([])
  }

  /** The id part of a bundle path on the write side: the model key, or `new` without one. */
  function BundleId(key: Option<string>): (id: string)
    ensures key.Some? ==> id == key.value
    ensures key.None? ==> id == "new"
  {
    key.GetOr("new")
  }

  /** The bundle file a write for `locale` goes to. */
  function WritePath(m: Model, locale: string): (p: string)
    ensures m.key.Some? ==> p == BundlePath(locale, m.cls, m.key.value)
    ensures m.key.None? ==> p == BundlePath(locale, m.cls, "new")
  {
    BundlePath(locale, m.cls, BundleId(m.key))
  }

  /** The locale of a read: the one asked for, else the application's current locale. */
  function ResolveLocale(locale: Option<string>, appLocale: string): (l: string)
    ensures locale.Some? ==> l == locale.value
    ensures locale.None? ==> l == appLocale
  {
    locale.GetOr(appLocale)
  }

  /** The bundle file a read goes to. */
  function ReadPath(m: Model, locale: Option<string>, appLocale: string): (p: string)
    ensures locale.Some? ==> p == WritePath(m, locale.value)
    ensures locale.None? ==> p == WritePath(m, appLocale)
  {
    BundlePath(ResolveLocale(locale, appLocale), m.cls, BundleId(m.key))
  }

  /**
   * The id part of a bundle path as the read side computes it: the model key
   * interpolated as it is, so a null key gives the empty string.
   */
  function ReadIdAsWritten(key: Option<string>): (id: string)
    ensures key.Some? ==> id == key.value
    ensures key.None? ==> id == ""
  {
    key.GetOr("")
  }

  /** The bundle file the read goes to as written, with the read side's id. */
  function ReadPathAsWritten(m: Model, locale: Option<string>, appLocale: string): (p: string)
    ensures m.key.Some? ==> p == ReadPath(m, locale, appLocale)
    ensures m.key.None? ==> p == BundlePath(ResolveLocale(locale, appLocale), m.cls, "")
  {
    BundlePath(ResolveLocale(locale, appLocale), m.cls, ReadIdAsWritten(m.key))
  }

  /** One bundle write that the save hook issues. */
  datatype WriteRequest = WriteRequest(attribute: string, locale: string, translation: string)

  /** The value the save hook reads for an attribute; a missing one reads as null. */
  function AttributeOf(attributes: map<string, AttributeValue>, attribute: string): (v: AttributeValue)
    ensures attribute in attributes ==> v == attributes[attribute]
    ensures attribute !in attributes ==> v == Null
  {
    if attribute in attributes then attributes[attribute] else Null
  }

  /** The writes for one attribute: one per entry of an array value, none otherwise. */
  function AttributeWrites(attributes: map<string, AttributeValue>, attribute: string): (ws: seq<WriteRequest>)
    ensures AttributeOf(attributes, attribute).Array? ==>
              |ws| == |AttributeOf(attributes, attribute).entries|
    ensures !AttributeOf(attributes, attribute).Array? ==> ws == []
    ensures forall k :: 0 <= k < |ws| ==>
              ws[k] == WriteRequest(attribute, AttributeOf(attributes, attribute).entries[k].0,
                                    AttributeOf(attributes, attribute).entries[k].1)
  {
    match AttributeOf(attributes, attribute)
    case Array(entries) =>
      seq(|entries|, k requires 0 <= k < |entries| => WriteRequest(attribute, entries[k].0, entries[k].1))
    case _ => []
  }

  /** The writes of the save hook, attribute by attribute in declaration order. */
  function PlannedWrites(attrs: seq<string>, attributes: map<string, AttributeValue>): seq<WriteRequest>
    decreases |attrs|
  {
    if attrs == [] then []
    else PlannedWrites(attrs[..|attrs| - 1], attributes) + AttributeWrites(attributes, attrs[|attrs| - 1])
  }

  /** The number of entries over all array-valued attributes of `attrs`, counted independently. */
  function EntryCount(attrs: seq<string>, attributes: map<string, AttributeValue>): nat
    decreases |attrs|
  {
    if attrs == [] then 0
    else
      var v := AttributeOf(attributes, attrs[0]);
      (if v.Array? then |v.entries| else 0) + EntryCount(attrs[1..], attributes)
  }

  /** The bundle files that the writes of `ws` go to, for one class and id. */
  function WrittenPaths(cls: string, id: string, ws: seq<WriteRequest>): set<string>
  {
    set j | 0 <= j < |ws| :: BundlePath(ws[j].locale, cls, id)
  }

  /**
   * The store after the writes of `ws`, in order, for one class and id: no
   * file disappears, and a file that no write goes to is left as it was.
   */
  function ApplyWrites(files: Files, cls: string, id: string, ws: seq<WriteRequest>): (r: Files)
    ensures files.Keys <= r.Keys
    ensures forall p :: p in files && p !in WrittenPaths(cls, id, ws) ==> r[p] == files[p]
    decreases |ws|
  {
    if ws == [] then files
    else
      var w := ws[|ws| - 1];
      StoreWrite(ApplyWrites(files, cls, id, ws[..|ws| - 1]), BundlePath(w.locale, cls, id), w.attribute, w.translation)
  }

  /** Applying one more write at the end. */
  lemma ApplyWritesSnoc(files: Files, cls: string, id: string, ws: seq<WriteRequest>, w: WriteRequest)
    ensures ApplyWrites(files, cls, id, ws + [w])
         == StoreWrite(ApplyWrites(files, cls, id, ws), BundlePath(w.locale, cls, id), w.attribute, w.translation)
  {
    assert (ws + [w])[..|ws|] == ws;
  }

  /** Applying two runs of writes one after the other. */
  lemma {:induction false} ApplyWritesAppend(files: Files, cls: string, id: string, ws: seq<WriteRequest>, more: seq<WriteRequest>)
    ensures ApplyWrites(files, cls, id, ws + more)
         == ApplyWrites(ApplyWrites(files, cls, id, ws), cls, id, more)
    decreases |more|
  {
    if more == [] {
      assert ws + more == ws;
    } else {
      var n := |more| - 1;
      assert ws + more == (ws + more[..n]) + [more[n]];
      ApplyWritesSnoc(files, cls, id, ws + more[..n], more[n]);
      ApplyWritesAppend(files, cls, id, ws, more[..n]);
    }
  }

  /** Planning the writes of one more attribute. */
  lemma PlannedWritesSnoc(attrs: seq<string>, i: nat, attributes: map<string, AttributeValue>)
    requires i < |attrs|
    ensures PlannedWrites(attrs[..i + 1], attributes)
         == PlannedWrites(attrs[..i], attributes) + AttributeWrites(attributes, attrs[i])
  {
    assert attrs[..i + 1][..i] == attrs[..i];
  }

  /**
   * One iteration of the save hook's outer loop: after the writes of the
   * first i attributes, the writes of attribute i bring the store to the
   * writes of the first i + 1.
   */
  lemma PlannedWritesStep(files: Files, before: Files, after: Files, m: Model, attrs: seq<string>, i: nat)
    requires i < |attrs|
    requires before == ApplyWrites(files, m.cls, BundleId(m.key), PlannedWrites(attrs[..i], m.attributes))
    requires AttributeOf(m.attributes, attrs[i]).Array? ==>
               after == ApplyWrites(before, m.cls, BundleId(m.key), AttributeWrites(m.attributes, attrs[i]))
    requires !AttributeOf(m.attributes, attrs[i]).Array? ==> after == before
    ensures after == ApplyWrites(files, m.cls, BundleId(m.key), PlannedWrites(attrs[..i + 1], m.attributes))
  {
    ApplyWritesAppend(files, m.cls, BundleId(m.key), PlannedWrites(attrs[..i], m.attributes),
                      AttributeWrites(m.attributes, attrs[i]));
    PlannedWritesSnoc(attrs, i, m.attributes);
  }

  /** Every planned write comes from an entry of an array-valued translatable attribute. */
  lemma {:induction false} PlannedWritesSound(attrs: seq<string>, attributes: map<string, AttributeValue>, w: WriteRequest)
    requires w in PlannedWrites(attrs, attributes)
    ensures w.attribute in attrs && w.attribute in attributes
    ensures attributes[w.attribute].Array?
    ensures (w.locale, w.translation) in attributes[w.attribute].entries
    decreases |attrs|
  {
    var n := |attrs| - 1;
    var front := PlannedWrites(attrs[..n], attributes);
    var last := AttributeWrites(attributes, attrs[n]);
    if w in front {
      PlannedWritesSound(attrs[..n], attributes, w);
      assert w.attribute in attrs[..n];
    } else {
      assert w in last;
      var k :| 0 <= k < |last| && last[k] == w;
      assert (w.locale, w.translation) == AttributeOf(attributes, attrs[n]).entries[k];
    }
  }

  /** Every entry of every array-valued translatable attribute has its planned write. */
  lemma {:induction false} PlannedWritesComplete(attrs: seq<string>, attributes: map<string, AttributeValue>,
                                                 attribute: string, k: nat)
    requires attribute in attrs && attribute in attributes && attributes[attribute].Array?
    requires k < |attributes[attribute].entries|
    ensures WriteRequest(attribute, attributes[attribute].entries[k].0, attributes[attribute].entries[k].1)
              in PlannedWrites(attrs, attributes)
    decreases |attrs|
  {
    var n := |attrs| - 1;
    if attrs[n] == attribute {
      assert AttributeWrites(attributes, attribute)[k]
          == WriteRequest(attribute, attributes[attribute].entries[k].0, attributes[attribute].entries[k].1);
    } else {
      assert attribute in attrs[..n] by {
        var i :| 0 <= i < |attrs| && attrs[i] == attribute;
        assert attrs[..n][i] == attribute;
      }
      PlannedWritesComplete(attrs[..n], attributes, attribute, k);
    }
  }

  /** The number of planned writes is the number of array entries: exactly one write per entry. */
  lemma {:induction false} PlannedWritesCount(attrs: seq<string>, attributes: map<string, AttributeValue>)
    ensures |PlannedWrites(attrs, attributes)| == EntryCount(attrs, attributes)
    decreases |attrs|
  {
    if attrs != [] {
      var n := |attrs| - 1;
      PlannedWritesCount(attrs[..n], attributes);
      EntryCountSnoc(attrs[..n], attrs[n], attributes);
      assert attrs[..n] + [attrs[n]] == attrs;
    }
  }

  /** Counting the entries of one more attribute at the end. */
  lemma {:induction false} EntryCountSnoc(attrs: seq<string>, a: string, attributes: map<string, AttributeValue>)
    ensures EntryCount(attrs + [a], attributes)
         == EntryCount(attrs, attributes)
            + (if AttributeOf(attributes, a).Array? then |AttributeOf(attributes, a).entries| else 0)
    decreases |attrs|
  {
    if attrs == [] {
      assert [a][1..] == [];
    } else {
      assert (attrs + [a])[1..] == attrs[1..] + [a];
      EntryCountSnoc(attrs[1..], a, attributes);
    }
  }

  /** Attributes whose value is not an array produce no writes at all. */
  lemma {:induction false} PlannedWritesSkipNonArrays(attrs: seq<string>, attributes: map<string, AttributeValue>)
    requires forall i :: 0 <= i < |attrs| ==> !AttributeOf(attributes, attrs[i]).Array?
    ensures PlannedWrites(attrs, attributes) == []
    decreases |attrs|
  {
    if attrs != [] {
      PlannedWritesSkipNonArrays(attrs[..|attrs| - 1], attributes);
    }
  }

  /** The (locale, attribute) a write lands on, for one class and id. */
  function Target(w: WriteRequest): (string, string)
  {
    (w.locale, w.attribute)
  }

  /** A write to another (locale, attribute) keeps a translation that is already readable. */
  lemma OtherWriteKeepsRead(files: Files, cls: string, id: string, w: WriteRequest, kept: WriteRequest)
    requires Target(w) != Target(kept)
    requires ReadAt(files, BundlePath(kept.locale, cls, id), kept.attribute) == Some(kept.translation)
    ensures ReadAt(StoreWrite(files, BundlePath(w.locale, cls, id), w.attribute, w.translation),
                   BundlePath(kept.locale, cls, id), kept.attribute)
         == Some(kept.translation)
  {
    if w.locale != kept.locale {
      LocalesIsolated(files, cls, id, w.locale, kept.locale, w.attribute, w.translation, kept.attribute);
    } else {
      WriteKeepsOtherReads(files, BundlePath(w.locale, cls, id), w.attribute, w.translation,
                           BundlePath(kept.locale, cls, id), kept.attribute);
    }
  }

  /**
   * In a sequence of writes for one class and id, a read of a
   * (locale, attribute) returns the translation of write i when no later
   * write to it carries a different translation.
   */
  lemma {:induction false} LastWriteWins(files: Files, cls: string, id: string, ws: seq<WriteRequest>, i: nat)
    requires i < |ws|
    requires forall j :: i < j < |ws| && Target(ws[j]) == Target(ws[i]) ==> ws[j].translation == ws[i].translation
    ensures ReadAt(ApplyWrites(files, cls, id, ws), BundlePath(ws[i].locale, cls, id), ws[i].attribute)
         == Some(ws[i].translation)
    decreases |ws|
  {
    var n := |ws| - 1;
    var front := ws[..n];
    var before := ApplyWrites(files, cls, id, front);
    var w := ws[n];
    assert ApplyWrites(files, cls, id, ws)
        == StoreWrite(before, BundlePath(w.locale, cls, id), w.attribute, w.translation);
    if i == n || Target(w) == Target(ws[i]) {
      WriteThenRead(before, BundlePath(w.locale, cls, id), w.attribute, w.translation);
    } else {
      assert front[i] == ws[i];
      LastWriteWins(files, cls, id, front, i);
      OtherWriteKeepsRead(before, cls, id, w, ws[i]);
    }
  }

  /** No two writes of `ws` land on the same (locale, attribute). */
  predicate DistinctTargets(ws: seq<WriteRequest>)
  {
    forall i, j :: 0 <= i < j < |ws| ==> Target(ws[i]) != Target(ws[j])
  }

  /** No two entries of a locale array share a locale, as PHP array keys never do. */
  predicate DistinctLocales(entries: seq<(string, string)>)
  {
    forall i, j :: 0 <= i < j < |entries| ==> entries[i].0 != entries[j].0
  }

  /** No attribute is declared translatable twice. */
  predicate DistinctAttributes(attrs: seq<string>)
  {
    forall i, j :: 0 <= i < j < |attrs| ==> attrs[i] != attrs[j]
  }

  /**
   * With each attribute declared once and locale arrays keyed uniquely, the
   * save hook writes each (locale, attribute) at most once.
   */
  lemma {:induction false} PlannedTargetsDistinct(attrs: seq<string>, attributes: map<string, AttributeValue>)
    requires DistinctAttributes(attrs)
    requires forall a :: a in attributes && attributes[a].Array? ==> DistinctLocales(attributes[a].entries)
    ensures DistinctTargets(PlannedWrites(attrs, attributes))
    decreases |attrs|
  {
    if attrs != [] {
      var n := |attrs| - 1;
      var front := PlannedWrites(attrs[..n], attributes);
      var block := AttributeWrites(attributes, attrs[n]);
      assert DistinctAttributes(attrs[..n]);
      PlannedTargetsDistinct(attrs[..n], attributes);
      var ws := front + block;
      forall i, j | 0 <= i < j < |ws|
        ensures Target(ws[i]) != Target(ws[j])
      {
        if j >= |front| {
          assert ws[j] == block[j - |front|];
          if i >= |front| {
            assert ws[i] == block[i - |front|];
          } else {
            assert ws[i] in front;
            PlannedWritesSound(attrs[..n], attributes, ws[i]);
            var k :| 0 <= k < n && attrs[..n][k] == ws[i].attribute;
            assert attrs[k] != attrs[n];
          }
        }
      }
    }
  }

  /** Every locale array holds each locale once, as the keys of a PHP array do. */
  predicate WellFormedArrays(attributes: map<string, AttributeValue>)
  {
    forall a :: a in attributes && attributes[a].Array? ==> DistinctLocales(attributes[a].entries)
  }

  /**
   * After the save hook, every (locale => translation) entry of every
   * array-valued translatable attribute reads back from the bundle of its
   * locale. An attribute declared twice is written twice with the same
   * translations, so the read-back holds for it too.
   */
  lemma SavedThenRead(files: Files, m: Model, attribute: string, k: nat)
    requires WellFormedArrays(m.attributes)
    requires attribute in GetTranslatableAttributes(m) && attribute in m.attributes
    requires m.attributes[attribute].Array? && k < |m.attributes[attribute].entries|
    ensures var entry := m.attributes[attribute].entries[k];
            var saved := ApplyWrites(files, m.cls, BundleId(m.key), PlannedWrites(GetTranslatableAttributes(m), m.attributes));
            ReadAt(saved, WritePath(m, entry.0), attribute) == Some(entry.1)
  {
    var attrs := GetTranslatableAttributes(m);
    var ws := PlannedWrites(attrs, m.attributes);
    var entries := m.attributes[attribute].entries;
    var w := WriteRequest(attribute, entries[k].0, entries[k].1);
    PlannedWritesComplete(attrs, m.attributes, attribute, k);
    var i :| 0 <= i < |ws| && ws[i] == w;
    forall j | i < j < |ws| && Target(ws[j]) == Target(ws[i])
      ensures ws[j].translation == ws[i].translation
    {
      assert ws[j] in ws;
      PlannedWritesSound(attrs, m.attributes, ws[j]);
      var e :| 0 <= e < |entries| && entries[e] == (ws[j].locale, ws[j].translation);
      assert entries[e].0 == entries[k].0;
    }
    LastWriteWins(files, m.cls, BundleId(m.key), ws, i);
  }

  /** Writing then reading the same model, locale and key gives the written value. */
  lemma TranslationRoundTrip(files: Files, m: Model, key: string, value: string, locale: string, appLocale: string)
    ensures ReadAt(StoreWrite(files, WritePath(m, locale), key, value), ReadPath(m, Some(locale), appLocale), key)
         == Some(value)
  {
    WriteThenRead(files, WritePath(m, locale), key, value);
  }

  /** A post with key 42 whose title is given in English and Turkish. */
  const SamplePost := Model("Post", Some("42"), Some(["title"]),
                            map["title" := Array([("en", "Hello"), ("tr", "Merhaba")])])

  /** The save hook for that post writes one bundle per locale. */
  lemma PostSavedPerLocale()
    ensures ApplyWrites(map[], "Post", "42", PlannedWrites(GetTranslatableAttributes(SamplePost), SamplePost.attributes))
         == map["en/Post/42.php" := map["title" := "Hello"], "tr/Post/42.php" := map["title" := "Merhaba"]]
  {
    var m := SamplePost;
    var ws := [WriteRequest("title", "en", "Hello"), WriteRequest("title", "tr", "Merhaba")];
    assert ["title"][..0] == [];
    assert PlannedWrites(GetTranslatableAttributes(m), m.attributes) == ws;
    var en, tr := "en/Post/42.php", "tr/Post/42.php";
    assert BundlePath("en", "Post", "42") == en && BundlePath("tr", "Post", "42") == tr;
    assert ws[..1] == [ws[0]] && [ws[0]][..0] == [];
    assert ApplyWrites(map[], "Post", "42", ws[..1][..0]) == map[];
    var first := ApplyWrites(map[], "Post", "42", ws[..1]);
    assert first == StoreWrite(map[], en, "title", "Hello");
    assert Versioned(map[], "title", "Hello") == map["title" := "Hello"];
    assert first == map[en := map["title" := "Hello"]];
    assert ApplyWrites(map[], "Post", "42", ws) == StoreWrite(first, tr, "title", "Merhaba");
    assert Versioned(map[], "title", "Merhaba") == map["title" := "Merhaba"];
  }

  /**
   * Retitling that post in English keeps the first title in `title_old1`.
   */
  lemma RetitledPostKeepsHistory()
    ensures var saved := ApplyWrites(map[], "Post", "42",
                                     PlannedWrites(GetTranslatableAttributes(SamplePost), SamplePost.attributes));
            var retitled := StoreWrite(saved, WritePath(SamplePost, "en"), "title", "Hi");
            && "en/Post/42.php" in retitled
            && retitled["en/Post/42.php"] == map["title" := "Hi", "title_old1" := "Hello"]
  {
    PostSavedPerLocale();
    var en, tr := "en/Post/42.php", "tr/Post/42.php";
    var saved := map[en := map["title" := "Hello"], tr := map["title" := "Merhaba"]];
    assert WritePath(SamplePost, "en") == en;
    var english := map["title" := "Hello"];
    assert LoadBundle(saved, en) == english;
    assert StoreWrite(saved, en, "title", "Hi") == saved[en := Versioned(english, "title", "Hi")];
    RetitleEnglishBundle();
  }

  /** The bundle-level step of the retitle: "Hello" moves to `title_old1`. */
  lemma RetitleEnglishBundle()
    ensures Versioned(map["title" := "Hello"], "title", "Hi") == map["title" := "Hi", "title_old1" := "Hello"]
  {
    var english := map["title" := "Hello"];
    assert "title" + "_old1" == "title_old1";
    FirstSlotOfUnversionedKey(english, "title");
    assert Supersedes(english, "title", "Hi");
  }

  /**
   * As written, the read side names a key-less model's bundle `.php` while the
   * write side names it `new.php`, so a translation written for such a model
   * is not found again.
   */
  lemma KeylessReadMissesAsWritten()
    ensures var m := Model("Post", None, Some(["title"]), map[]);
            var files := StoreWrite(map[], WritePath(m, "en"), "title", "Hello");
            ReadAt(files, ReadPathAsWritten(m, Some("en"), "en"), "title") == None
  {
    var m := Model("Post", None, Some(["title"]), map[]);
    assert WritePath(m, "en") == "en/Post/new.php";
    assert ReadPathAsWritten(m, Some("en"), "en") == "en/Post/.php";
    assert |"en/Post/new.php"| != |"en/Post/.php"|;
  }

  /**
   * The lang directory, holding one bundle per path. `files` is what the
   * bundle files on disk contain.
   */
  class TranslationStore {
    var files: Files

    constructor (initial: Files)
      ensures files == initial
    {
      files := initial;
    }

    /**
     * Writes `value` under `key` into the bundle of `locale` for `m`,
     * moving a different previous value into the first free history slot.
     */
    method SaveToLangFile(m: Model, key: string, value: string, locale: string)
      modifies this
      ensures files == StoreWrite(old(files), WritePath(m, locale), key, value)
    {
      var path := BundlePath(locale, m.cls, BundleId(m.key));
      var translations: Bundle := map[];
      if path in files {
        translations := files[path];
      }
      ghost var loaded := translations;
      if key in translations && translations[key] != value {
        var i := 1;
        while OldKey(key, i) in translations
          invariant 1 <= i && SlotsFilled(translations, key, 1, i)
          invariant files == old(files)
          decreases |translations| + 1 - i
        {
          FilledSlotsBound(translations, key, i);
          i := i + 1;
        }
        FirstFreeUnique(translations, key, i, FirstFreeSlot(translations, key));
        translations := translations[OldKey(key, i) := translations[key]];
      }
      translations := translations[key := value];
      assert translations == Versioned(loaded, key, value);
      files := files[path := translations];
    }

    /**
     * The save hook: for each translatable attribute whose value is an array,
     * one bundle write per (locale, translation) entry, in order.
     */
    method OnSaved(m: Model)
      modifies this
      ensures files == ApplyWrites(old(files), m.cls, BundleId(m.key),
                                   PlannedWrites(GetTranslatableAttributes(m), m.attributes))
    {
      var attrs := GetTranslatableAttributes(m);
      var i := 0;
      while i < |attrs|
        invariant 0 <= i <= |attrs|
        invariant files == ApplyWrites(old(files), m.cls, BundleId(m.key), PlannedWrites(attrs[..i], m.attributes))
      {
        ghost var before := files;
        var value := AttributeOf(m.attributes, attrs[i]);
        if value.Array? {
          SaveLocales(m, attrs[i], value.entries);
        }
        PlannedWritesStep(old(files), before, files, m, attrs, i);
        i := i + 1;
      }
      assert attrs[..i] == attrs;
    }

    /** The inner loop of the save hook: one bundle write per (locale, translation) entry. */
    method SaveLocales(m: Model, attribute: string, entries: seq<(string, string)>)
      requires AttributeOf(m.attributes, attribute) == Array(entries)
      modifies this
      ensures files == ApplyWrites(old(files), m.cls, BundleId(m.key), AttributeWrites(m.attributes, attribute))
    {
      ghost var block := AttributeWrites(m.attributes, attribute);
      var j := 0;
      assert block[..0] == [];
      while j < |entries|
        invariant 0 <= j <= |entries|
        invariant files == ApplyWrites(old(files), m.cls, BundleId(m.key), block[..j])
      {
        var (locale, translation) := entries[j];
        SaveToLangFile(m, attribute, translation, locale);
        assert block[..j + 1] == block[..j] + [block[j]];
        ApplyWritesSnoc(old(files), m.cls, BundleId(m.key), block[..j], block[j]);
        j := j + 1;
      }
      assert block[..j] == block;
    }

    /** The translation of `key` for this model in `locale` (or the app locale). */
    function GetTranslation(m: Model, key: string, locale: Option<string>, appLocale: string): (r: Option<string>)
      reads this
      ensures var path := ReadPath(m, locale, appLocale);
              && (r.Some? <==> path in files && key in files[path])
              && (r.Some? ==> r.value == files[path][key])
    {
      ReadAt(files, ReadPath(m, locale, appLocale), key)
    }

    /** The read exactly as written, with a null key giving an empty id. */
    function GetTranslationAsWritten(m: Model, key: string, locale: Option<string>, appLocale: string): (r: Option<string>)
      reads this
      ensures var path := ReadPathAsWritten(m, locale, appLocale);
              && (r.Some? <==> path in files && key in files[path])
              && (r.Some? ==> r.value == files[path][key])
    {
      ReadAt(files, ReadPathAsWritten(m, locale, appLocale), key)
    }
  }
}
