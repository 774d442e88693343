/**
 * The label-template generator: it lists the image files of a folder, and merges
 * them into the existing label store so that every image has a record with the
 * fields `answers`, `category` and `hint`, counting the records it added and the
 * ones it completed.
 *
 * The directory listing and the JSON file are not read here: the listing is an
 * argument (each entry's name and whether it is a regular file), and so is the
 * store as it was read (`None` when the file is missing or not valid JSON, which
 * both mean an empty store).
 */
module LabelTemplate {
  import opened Wrappers
  import opened Strings
  import opened Labels

  /** The file suffixes taken as images, compared after lower-casing. */
  const SupportedFormats: set<string> := {".png", ".jpg", ".jpeg", ".bmp", ".gif"}

  /** One name returned by `os.listdir`, and whether it is a regular file. */
  datatype DirEntry = DirEntry(name: string, isFile: bool)

  /** A regular file whose lower-cased suffix is a supported format. */
  predicate IsImageFile(e: DirEntry) {
    e.isFile && Lower(PathSuffix(e.name)) in SupportedFormats
  }

  /** Worked examples of the filter: the suffix is compared after lower-casing, a name
      that only starts with a dot has no suffix, and a directory is never an image. */
  lemma ImageFilterExample()
    ensures IsImageFile(DirEntry("cat.PNG", true))
    ensures !IsImageFile(DirEntry(".png", true))
    ensures !IsImageFile(DirEntry("cat.png", false))
  {
    ExampleSuffixes();
    assert Lower(".PNG") == ".png";
  }

  lemma ExampleSuffixes()
    ensures PathSuffix("cat.PNG") == ".PNG" && PathSuffix(".png") == ""
  {
    LastIndexOfLastOccurrence("cat", '.', "PNG");
    assert "cat" + ['.'] + "PNG" == "cat.PNG";
    LastIndexOfLastOccurrence("", '.', "png");
    assert [] + ['.'] + "png" == ".png";
  }

  /** The list comprehension collecting the image files: the names of the image
      entries, in listing order. */
  function ImageFiles(listing: seq<DirEntry>): (files: seq<string>)
    ensures |files| <= |listing|
  {
    if listing == [] then []
    else
      var rest := ImageFiles(listing[1..]);
      if IsImageFile(listing[0]) then [listing[0].name] + rest else rest
  }

  /** Some entry of the listing named `n` is an image file. */
  predicate ListsImage(listing: seq<DirEntry>, n: string) {
    listing != [] && ((IsImageFile(listing[0]) && listing[0].name == n) || ListsImage(listing[1..], n))
  }

  /** A listing in which no entry is named `n` lists no image named `n`. */
  lemma {:induction false} NotListed(listing: seq<DirEntry>, n: string)
    requires forall i :: 0 <= i < |listing| ==> listing[i].name != n
    ensures !ListsImage(listing, n)
  {
    if listing != [] {
      assert forall i :: 0 <= i < |listing[1..]| ==> listing[1..][i] == listing[i + 1];
      NotListed(listing[1..], n);
    }
  }

  /** A name is collected exactly when some entry of the listing with that name is an
      image file: a regular file with a supported suffix. */
  lemma {:induction false} ImageFilesMembers(listing: seq<DirEntry>, n: string)
    ensures n in ImageFiles(listing) <==> ListsImage(listing, n)
  {
    if listing != [] {
      ImageFilesMembers(listing[1..], n);
    }
  }

  /** The names in a list, as a set. */
  function Names(files: seq<string>): set<string> {
    set n | n in files
  }

  /** A listing in which no name is repeated, as `os.listdir` returns it. */
  predicate DistinctNames(listing: seq<DirEntry>) {
    forall i, j :: 0 <= i < j < |listing| ==> listing[i].name != listing[j].name
  }

  // ---- sorted() ------------------------------------------------------------

  /** Non-decreasing in Python's string order. */
  predicate Ordered(s: seq<string>) {
    forall k :: 0 <= k < |s| - 1 ==> !LexLess(s[k + 1], s[k])
  }

  /** `x` put into an ordered list before the first element not below it. */
  function Insert(x: string, s: seq<string>): (r: seq<string>)
    requires Ordered(s)
    ensures Ordered(r)
    ensures multiset(r) == multiset(s) + multiset{x}
    ensures r[0] == x || (s != [] && r[0] == s[0])
  {
    if s == [] then [x]
    else if !LexLess(s[0], x) then [x] + s
    else
      var rest := Insert(x, s[1..]);
      LexLessAsymmetric(s[0], x);
      assert s == [s[0]] + s[1..];
      [s[0]] + rest
  }

  /** `sorted(files)`: the same names, in order. */
  function SortNames(files: seq<string>): (r: seq<string>)
    ensures Ordered(r)
    ensures multiset(r) == multiset(files)
  {
    if files == [] then []
    else
      assert files == [files[0]] + files[1..];
      Insert(files[0], SortNames(files[1..]))
  }

  /** Sorting keeps the names and the length. */
  lemma SortKeepsNames(files: seq<string>)
    ensures Names(SortNames(files)) == Names(files)
    ensures |SortNames(files)| == |files|
  {
    var order := SortNames(files);
    assert forall n :: n in order <==> n in multiset(order);
    assert forall n :: n in files <==> n in multiset(files);
    assert |multiset(order)| == |multiset(files)|;
  }

  // ---- the merge -----------------------------------------------------------

  /** The record a new image gets: no answers, empty category and hint. */
  function DefaultEntry(): (e: Entry)
    ensures e.Keys == {"answers", "category", "hint"}
    ensures e["answers"] == StrList([]) && e["category"] == Str("") && e["hint"] == Str("")
  {
    map["answers" := StrList([]), "category" := Str(""), "hint" := Str("")]
  }

  /** An existing record with each missing field added with its default value; the
      fields it has, and any others, are kept as they are. */
  function Completed(e: Entry): Entry {
    DefaultEntry() + e
  }

  /** Completing keeps every field of the record and adds exactly the missing
      standard fields, each with its default value. */
  lemma CompletedProperties(e: Entry)
    ensures Completed(e).Keys == e.Keys + {"answers", "category", "hint"}
    ensures forall f :: f in e ==> Completed(e)[f] == e[f]
    ensures forall f :: f in Completed(e) && f !in e ==> Completed(e)[f] == DefaultEntry()[f]
  {
  }

  /** The store after merging the image names `names` into `existing`: every name
      has a record, a new one the default and an old one completed; every other key
      keeps its record. */
  function Merged(existing: LabelMap, names: set<string>): (merged: LabelMap)
    ensures merged.Keys == existing.Keys + names
  {
    map k | k in existing.Keys + names ::
      if k in names then (if k in existing then Completed(existing[k]) else DefaultEntry())
      else existing[k]
  }

  /** What the merge guarantees: the keys are the old keys and the names; names that
      were new get the default record; names already present keep every field they
      had and gain the missing ones; every other key is untouched. */
  lemma MergedProperties(existing: LabelMap, names: set<string>)
    ensures Merged(existing, names).Keys == existing.Keys + names
    ensures forall n :: n in names && n !in existing ==> Merged(existing, names)[n] == DefaultEntry()
    ensures forall n, f :: n in names && n in existing && f in existing[n] ==>
      f in Merged(existing, names)[n] && Merged(existing, names)[n][f] == existing[n][f]
    ensures forall n :: n in names ==> {"answers", "category", "hint"} <= Merged(existing, names)[n].Keys
    ensures forall k :: k in existing && k !in names ==> Merged(existing, names)[k] == existing[k]
  {
  }

  /** Completing a complete record changes nothing. */
  lemma CompletedIdempotent(e: Entry)
    ensures Completed(Completed(e)) == Completed(e)
  {
    assert Completed(Completed(e)).Keys == Completed(e).Keys;
  }

  /** The default record is complete. */
  lemma CompletedOfDefault()
    ensures Completed(DefaultEntry()) == DefaultEntry()
  {
    assert Completed(DefaultEntry()).Keys == DefaultEntry().Keys;
  }

  /** Running the merge again on its own output with the same images changes nothing. */
  lemma MergedIdempotent(existing: LabelMap, names: set<string>)
    ensures Merged(Merged(existing, names), names) == Merged(existing, names)
    ensures names - Merged(existing, names).Keys == {}
  {
    var once := Merged(existing, names);
    forall k | k in names
      ensures Merged(once, names)[k] == once[k]
    {
      if k in existing {
        CompletedIdempotent(existing[k]);
      } else {
        CompletedOfDefault();
      }
    }
  }

  /** One step of the loop on a name already in the store: the three checks for a
      missing field give the completed record. */
  function FillMissing(e: Entry): (c: Entry)
    ensures c == Completed(e)
  {
    var withAnswers := if "answers" !in e then e["answers" := StrList([])] else e;
    var withCategory := if "category" !in withAnswers then withAnswers["category" := Str("")] else withAnswers;
    if "hint" !in withCategory then withCategory["hint" := Str("")] else withCategory
  }

  /** One more element of the list is one more name in the set. */
  lemma NamesOfLongerPrefix(files: seq<string>, i: nat)
    requires i < |files|
    ensures Names(files[..i + 1]) == Names(files[..i]) + {files[i]}
  {
    assert files[..i + 1] == files[..i] + [files[i]];
  }

  /** The loop step on a name without a record: it gets the default record, and the
      names without a previous record grow by one. */
  lemma MergeStepNew(existing: LabelMap, seen: set<string>, n: string)
    requires n !in Merged(existing, seen)
    ensures Merged(existing, seen)[n := DefaultEntry()] == Merged(existing, seen + {n})
    ensures |(seen + {n}) - existing.Keys| == |seen - existing.Keys| + 1
  {
    assert n !in existing && n !in seen;
    MergedWithNewName(existing, seen, n);
    OneMoreNewName(existing, seen, n);
  }

  /** Merging one more name that is in neither the store nor the names seen so far
      adds its default record and changes nothing else. */
  lemma MergedWithNewName(existing: LabelMap, seen: set<string>, n: string)
    requires n !in existing && n !in seen
    ensures Merged(existing, seen)[n := DefaultEntry()] == Merged(existing, seen + {n})
  {
    var before, after := Merged(existing, seen), Merged(existing, seen + {n});
    var updated := before[n := DefaultEntry()];
    assert updated.Keys == after.Keys;
    forall k | k in after
      ensures updated[k] == after[k]
    {
      if k != n && k in seen {
        assert updated[k] == before[k];
      }
    }
  }

  /** A name in neither the store nor the names seen so far adds one new name. */
  lemma OneMoreNewName(existing: LabelMap, seen: set<string>, n: string)
    requires n !in existing && n !in seen
    ensures |(seen + {n}) - existing.Keys| == |seen - existing.Keys| + 1
  {
    assert (seen + {n}) - existing.Keys == (seen - existing.Keys) + {n};
  }

  /** The loop step on a name with a record: the record is completed, and the names
      without a previous record stay the same. */
  lemma MergeStepKnown(existing: LabelMap, seen: set<string>, n: string)
    requires n in Merged(existing, seen)
    ensures Merged(existing, seen)[n := Completed(Merged(existing, seen)[n])] == Merged(existing, seen + {n})
    ensures (seen + {n}) - existing.Keys == seen - existing.Keys
  {
    if n in seen && n in existing {
      CompletedIdempotent(existing[n]);
    } else if n in seen {
      CompletedOfDefault();
    }
  }

  /** One pass of the loop on a name at position `i` that has no record yet: from the
      merge of the names before `i`, giving it the default record reaches the merge of
      the names up to `i`, and one more name counts as new. */
  lemma MergeStepAdds(existing: LabelMap, order: seq<string>, i: nat, labels: LabelMap)
    requires i < |order| && labels == Merged(existing, Names(order[..i])) && order[i] !in labels
    ensures labels[order[i] := DefaultEntry()] == Merged(existing, Names(order[..i + 1]))
    ensures NewNames(existing, order[..i + 1]) == NewNames(existing, order[..i]) + 1
  {
    NamesOfLongerPrefix(order, i);
    MergeStepNew(existing, Names(order[..i]), order[i]);
  }

  /** One pass of the loop on a name at position `i` that has a record: completing it
      reaches the merge of the names up to `i`, and no name counts as new. */
  lemma MergeStepCompletes(existing: LabelMap, order: seq<string>, i: nat, labels: LabelMap)
    requires i < |order| && labels == Merged(existing, Names(order[..i])) && order[i] in labels
    ensures labels[order[i] := Completed(labels[order[i]])] == Merged(existing, Names(order[..i + 1]))
    ensures NewNames(existing, order[..i + 1]) == NewNames(existing, order[..i])
  {
    NamesOfLongerPrefix(order, i);
    MergeStepKnown(existing, Names(order[..i]), order[i]);
  }

  /** Before the loop no name has been merged and none counted. */
  lemma MergeStart(existing: LabelMap, order: seq<string>)
    ensures Merged(existing, Names(order[..0])) == existing
    ensures NewNames(existing, order[..0]) == 0
  {
    assert Names(order[..0]) == {};
    assert Merged(existing, {}) == existing;
  }

  /** After the loop every name has been merged and counted. */
  lemma MergeEnd(existing: LabelMap, order: seq<string>)
    ensures Merged(existing, Names(order[..|order|])) == Merged(existing, Names(order))
    ensures NewNames(existing, order[..|order|]) == NewNames(existing, order)
  {
    assert order[..|order|] == order;
  }

  /** The number of names in `files` that have no record in `existing`. */
  function NewNames(existing: LabelMap, files: seq<string>): nat {
    |Names(files) - existing.Keys|
  }

  /** The merge loop over the names in order: an unseen name gets the default record
      and counts as new, a name already present is completed and counts as updated. */
  method MergeLabels(existing: LabelMap, order: seq<string>) returns (labels: LabelMap, newCount: nat, updatedCount: nat)
    ensures labels == Merged(existing, Names(order))
    ensures newCount == NewNames(existing, order)
    ensures newCount + updatedCount == |order|
  {
    labels := existing;
    newCount, updatedCount := 0, 0;
    var i := 0;
    MergeStart(existing, order);
    while i < |order|
      invariant 0 <= i <= |order|
      invariant labels == Merged(existing, Names(order[..i]))
      invariant newCount == NewNames(existing, order[..i])
      invariant newCount + updatedCount == i
    {
      var imageFile := order[i];
      if imageFile !in labels {
        MergeStepAdds(existing, order, i, labels);
        labels := labels[imageFile := DefaultEntry()];
        newCount := newCount + 1;
      } else {
        MergeStepCompletes(existing, order, i, labels);
        labels := labels[imageFile := FillMissing(labels[imageFile])];
        updatedCount := updatedCount + 1;
      }
      i := i + 1;
    }
    MergeEnd(existing, order);
  }

  // ---- the whole script ----------------------------------------------------

  /** How a run ends: no images folder, no image in it, or the merged store with the
      total number of images and the new and updated counts (writing the file is not
      modelled). */
  datatype Outcome =
    | MissingImagesDir
    | NoImages
    | Written(labels: LabelMap, total: nat, newCount: nat, updatedCount: nat)

  /** The store `create_label_template` starts from: the file's content, or `{}`. */
  function StartingLabels(loaded: Option<LabelMap>): (labels: LabelMap)
    ensures loaded.None? ==> labels == map[]
    ensures loaded.Some? ==> labels == loaded.value
  {
    if loaded.Some? then loaded.value else map[]
  }

  /** `create_label_template`: stops when the images folder is missing or holds no
      image; otherwise merges the sorted image names into the starting store. The
      counts add up to the number of images, the new ones are exactly the images that
      had no record, and with distinct names every image is counted once. */
  method CreateLabelTemplate(loaded: Option<LabelMap>, listing: Option<seq<DirEntry>>) returns (outcome: Outcome)
    ensures listing.None? ==> outcome == MissingImagesDir
    ensures listing.Some? && ImageFiles(listing.value) == [] ==> outcome == NoImages
    ensures listing.Some? && ImageFiles(listing.value) != [] ==>
      var files, existing := ImageFiles(listing.value), StartingLabels(loaded);
      && outcome.Written?
      && outcome.labels == Merged(existing, Names(files))
      && outcome.total == |files|
      && outcome.newCount == |Names(files) - existing.Keys|
      && outcome.newCount + outcome.updatedCount == outcome.total
    ensures outcome.Written? && DistinctNames(listing.value) ==> outcome.total == |Names(ImageFiles(listing.value))|
  {
    var existing := StartingLabels(loaded);
    if listing.None? {
      return MissingImagesDir;
    }
    var imageFiles := ImageFiles(listing.value);
    if imageFiles == [] {
      return NoImages;
    }
    var order := SortNames(imageFiles);
    SortKeepsNames(imageFiles);
    var labels, newCount, updatedCount := MergeLabels(existing, order);
    if DistinctNames(listing.value) {
      DistinctImageFiles(listing.value);
    }
    return Written(labels, |imageFiles|, newCount, updatedCount);
  }

  /** Without repeated names in the listing, the image list has no repeats, so it has
      as many names as elements. */
  lemma {:induction false} DistinctImageFiles(listing: seq<DirEntry>)
    requires DistinctNames(listing)
    ensures |Names(ImageFiles(listing))| == |ImageFiles(listing)|
  {
    if listing != [] {
      var rest := ImageFiles(listing[1..]);
      DistinctTail(listing);
      DistinctImageFiles(listing[1..]);
      if IsImageFile(listing[0]) {
        var n := listing[0].name;
        ImageFilesMembers(listing[1..], n);
        assert Names([n] + rest) == Names(rest) + {n};
      }
    }
  }

  /** In a listing without repeated names, the rest has none either, and the first
      name does not occur in it. */
  lemma DistinctTail(listing: seq<DirEntry>)
    requires listing != [] && DistinctNames(listing)
    ensures DistinctNames(listing[1..])
    ensures !ListsImage(listing[1..], listing[0].name)
  {
    var tail := listing[1..];
    forall i, j | 0 <= i < j < |tail| ensures tail[i].name != tail[j].name {
      assert tail[i] == listing[i + 1] && tail[j] == listing[j + 1];
    }
    forall i | 0 <= i < |tail| ensures tail[i].name != listing[0].name {
      assert tail[i] == listing[i + 1];
    }
    NotListed(tail, listing[0].name);
  }
}
