/**
 * The label store: a dictionary from an image's base file name to its record of
 * accepted answers, category and hint, as read from labels.json. Every lookup and
 * update keys on `os.path.basename` of the name it is given.
 *
 * JSON values are modelled by `Value`; a record is a map from field name to value.
 */
module Labels {
  import opened Strings

  /** A JSON value as the store meets it. `Null` is JSON null, which is also Python's
      `None`; `Other` stands for a number, a boolean or an object, with its truthiness. */
  datatype Value =
    | Null
    | Str(s: string)
    | StrList(items: seq<string>)
    | Other(truthy: bool)

  /** Python truthiness of a value. */
  predicate Truthy(v: Value) {
    match v
    case Null => false
    case Str(s) => s != ""
    case StrList(items) => items != []
    case Other(t) => t
  }

  /** One image's record: field name to value. */
  type Entry = map<string, Value>

  /** The whole store: base file name to record. */
  type LabelMap = map<string, Entry>

  /** An answers argument of the caller: a list of strings, Python's `None`, or a
      single string. */
  datatype AnswersArg = AnswerList(items: seq<string>) | NoAnswers | SingleAnswer(text: string)

  /** The list `get_answers` makes of a record: a stored list as it is, a stored string
      as a one-element list, anything else (or no `answers` field) as the empty list. */
  function EntryAnswers(e: Entry): (r: seq<string>)
    ensures "answers" in e && e["answers"].StrList? ==> r == e["answers"].items
    ensures "answers" in e && e["answers"].Str? ==> r == [e["answers"].s]
    ensures !("answers" in e && (e["answers"].StrList? || e["answers"].Str?)) ==> r == []
  {
    var answers := if "answers" in e then e["answers"] else StrList([]);
    match answers
    case StrList(items) => items
    case Str(s) => [s]
    case _ => []
  }

  /** `e.get(field, None)`. */
  function EntryField(e: Entry, field: string): (v: Value)
    ensures field in e ==> v == e[field]
    ensures field !in e ==> v == Null
  {
    if field in e then e[field] else Null
  }

  /** The answers list `set_label` stores: a list as it is; a string wrapped as a
      one-element list when it is non-empty, the empty list when it is empty or `None`. */
  function StoredAnswers(answers: AnswersArg): (r: seq<string>)
    ensures answers.AnswerList? ==> r == answers.items
    ensures answers.NoAnswers? ==> r == []
    ensures answers.SingleAnswer? ==> |r| <= 1 && (r == [] <==> answers.text == "")
    ensures answers.SingleAnswer? && r != [] ==> r[0] == answers.text
  {
    match answers
    case AnswerList(items) => items
    case NoAnswers => []
    case SingleAnswer(text) => if text != "" then [text] else []
  }

  /** The record `set_label` writes: `answers` always, and `category` and `hint` only
      when the argument is truthy. */
  function NewEntry(answers: AnswersArg, category: Value, hint: Value): (e: Entry)
    ensures "answers" in e && e["answers"] == StrList(StoredAnswers(answers))
    ensures "category" in e <==> Truthy(category)
    ensures "hint" in e <==> Truthy(hint)
    ensures forall f :: f in e ==> f in {"answers", "category", "hint"}
    ensures "category" in e ==> e["category"] == category
    ensures "hint" in e ==> e["hint"] == hint
  {
    var e0 := map["answers" := StrList(StoredAnswers(answers))];
    var e1 := if Truthy(category) then e0["category" := category] else e0;
    if Truthy(hint) then e1["hint" := hint] else e1
  }

  /** Reading back what `set_label` wrote under `key` gives the stored list, and the
      category and hint when they were truthy (`None` otherwise); every other key reads
      as before. */
  lemma SetThenGet(labels: LabelMap, key: string, answers: AnswersArg, category: Value, hint: Value, other: string)
    requires other != key
    ensures var after := labels[key := NewEntry(answers, category, hint)];
      && EntryAnswers(after[key]) == StoredAnswers(answers)
      && EntryField(after[key], "category") == (if Truthy(category) then category else Null)
      && EntryField(after[key], "hint") == (if Truthy(hint) then hint else Null)
      && (other in after <==> other in labels)
      && (other in labels ==> after[other] == labels[other])
  {
  }

  /** A list-valued answers argument reads back unchanged. */
  lemma SetListThenGet(labels: LabelMap, key: string, items: seq<string>, category: Value, hint: Value)
    ensures EntryAnswers(labels[key := NewEntry(AnswerList(items), category, hint)][key]) == items
  {
  }

  class LabelLoader {
    /** `self.labels`: what `load_labels` read from the file (I/O not modelled). */
    var labels: LabelMap

    constructor (loaded: LabelMap)
      ensures labels == loaded
    {
      labels := loaded;
    }

    /** `has_label`: the base name is a key of the store. */
    function HasLabel(imageFilename: string): (b: bool)
      reads this
      ensures b <==> Basename(imageFilename) in labels
    {
      Basename(imageFilename) in labels
    }

    /** `get_answers`: the answers of the record under the base name, `[]` when there is
      none. */
    function GetAnswers(imageFilename: string): (r: seq<string>)
      reads this
      ensures !HasLabel(imageFilename) ==> r == []
      ensures HasLabel(imageFilename) ==> r == EntryAnswers(labels[Basename(imageFilename)])
    {
      var filename := Basename(imageFilename);
      if filename in labels then EntryAnswers(labels[filename]) else []
    }

    /** `get_category`: the stored category, `None` when the record or the field is missing. */
    function GetCategory(imageFilename: string): (v: Value)
      reads this
      ensures !HasLabel(imageFilename) ==> v == Null
      ensures HasLabel(imageFilename) ==> v == EntryField(labels[Basename(imageFilename)], "category")
    {
      var filename := Basename(imageFilename);
      if filename in labels then EntryField(labels[filename], "category") else Null
    }

    /** `get_hint`: the stored hint, `None` when the record or the field is missing. */
    function GetHint(imageFilename: string): (v: Value)
      reads this
      ensures !HasLabel(imageFilename) ==> v == Null
      ensures HasLabel(imageFilename) ==> v == EntryField(labels[Basename(imageFilename)], "hint")
    {
      var filename := Basename(imageFilename);
      if filename in labels then EntryField(labels[filename], "hint") else Null
    }

    /** `get_display_answer`: the first answer, `""` when there are none. */
    function GetDisplayAnswer(imageFilename: string): (s: string)
      reads this
      ensures GetAnswers(imageFilename) == [] ==> s == ""
      ensures GetAnswers(imageFilename) != [] ==> s == GetAnswers(imageFilename)[0]
    {
      var answers := GetAnswers(imageFilename);
      if answers != [] then answers[0] else ""
    }

    /** `get_all_labels`: the whole store. */
    method GetAllLabels() returns (all: LabelMap)
      ensures all == labels
    {
      all := labels;
    }

    /** `set_label`: replaces the whole record under the base name with `NewEntry`;
        afterwards the name has a label, reads back the stored answers, category and
        hint, and every other base name reads as before. */
    method SetLabel(imageFilename: string, answers: AnswersArg, category: Value := Null, hint: Value := Null)
      modifies this
      ensures labels == old(labels)[Basename(imageFilename) := NewEntry(answers, category, hint)]
      ensures HasLabel(imageFilename)
      ensures GetAnswers(imageFilename) == StoredAnswers(answers)
      ensures GetCategory(imageFilename) == if Truthy(category) then category else Null
      ensures GetHint(imageFilename) == if Truthy(hint) then hint else Null
      ensures forall k :: k != Basename(imageFilename) ==> (k in labels <==> k in old(labels))
      ensures forall k :: k != Basename(imageFilename) && k in old(labels) ==> labels[k] == old(labels)[k]
    {
      var filename := Basename(imageFilename);
      labels := labels[filename := NewEntry(answers, category, hint)];
    }
  }

  /** Every lookup depends only on the base name of its argument. */
  lemma LookupsUseBasename(loader: LabelLoader, imageFilename: string)
    ensures loader.HasLabel(imageFilename) == loader.HasLabel(Basename(imageFilename))
    ensures loader.GetAnswers(imageFilename) == loader.GetAnswers(Basename(imageFilename))
    ensures loader.GetCategory(imageFilename) == loader.GetCategory(Basename(imageFilename))
    ensures loader.GetHint(imageFilename) == loader.GetHint(Basename(imageFilename))
    ensures loader.GetDisplayAnswer(imageFilename) == loader.GetDisplayAnswer(Basename(imageFilename))
  {
    BasenameIdempotent(imageFilename);
  }
}
