/**
 * One round of the game: an image, its accepted answers, category and hint, the
 * reveal mode and the time limit. The round turns an elapsed time into the image to
 * show and into a score, and judges the player's answer leniently.
 *
 * The expression-level rules (progress, mode dispatch, score, answer normalisation,
 * the filename fallback) are functions; `GameEngine` holds the fields that
 * `__init__`, `load_answers_from_label` and `set_answers` assign.
 */
module Game {
  import opened Wrappers
  import opened Strings
  import opened ImageProcessor
  import Labels

  // ---- progress and reveal -------------------------------------------------

  /** The progress `get_processed_image` passes on: `elapsed / time_limit` clamped to
      [0, 1], and 1 when the time limit is not positive. */
  function Progress(elapsed: real, timeLimit: real): (p: real)
    ensures 0.0 <= p <= 1.0
    ensures timeLimit <= 0.0 ==> p == 1.0
    ensures timeLimit > 0.0 && elapsed >= timeLimit ==> p == 1.0
    ensures timeLimit > 0.0 && elapsed <= 0.0 ==> p == 0.0
    ensures timeLimit > 0.0 && 0.0 <= elapsed <= timeLimit ==> p * timeLimit == elapsed
  {
    Clamp01(if timeLimit > 0.0 then elapsed / timeLimit else 1.0)
  }

  /** Progress never goes back as time goes on. */
  lemma ProgressMonotone(e1: real, e2: real, timeLimit: real)
    requires e1 <= e2
    ensures Progress(e1, timeLimit) <= Progress(e2, timeLimit)
  {
    if timeLimit > 0.0 {
      assert e1 / timeLimit <= e2 / timeLimit by {
        assert e2 / timeLimit - e1 / timeLimit == (e2 - e1) / timeLimit;
      }
    }
  }

  /** The mode dispatch of `get_processed_image`: "blur", "zoom" and "hybrid" select
      their transform; any other mode shows the image unchanged. The output always
      exists and has the size of the input. */
  function Reveal(mode: string, image: Image, progress: real): (r: Option<Image>)
    ensures SameSize(Some(image), r)
    ensures mode == "blur" ==> r == ApplyBlur(Some(image), progress)
    ensures mode == "zoom" ==> r == ApplyZoom(Some(image), progress)
    ensures mode == "hybrid" ==> r == ApplyHybrid(Some(image), progress)
    ensures mode !in {"blur", "zoom", "hybrid"} ==> r == Some(image)
  {
    if mode == "blur" then ApplyBlur(Some(image), progress)
    else if mode == "zoom" then ApplyZoom(Some(image), progress)
    else if mode == "hybrid" then ApplyHybrid(Some(image), progress)
    else Some(image)
  }

  /** At full progress every mode shows the image itself, or (zoom and hybrid) the
      image through the identity matrix. */
  lemma RevealCompleteAtFullProgress(mode: string, image: Image, progress: real)
    ensures progress >= 1.0 ==>
      var r := Reveal(mode, image, progress);
      r == Some(image) || r == Some(WarpedAffine(image, Identity, Width(image), Height(image)))
  {
  }

  // ---- score ---------------------------------------------------------------

  /** `calculate_score`: nothing once the time limit is reached or when it is not
      positive; otherwise linear in the remaining time, from 100 at elapsed 0 down
      towards 0 at the limit. Negative elapsed times are not clamped and score above 100. */
  function CalculateScore(elapsedSeconds: real, timeLimit: real): (score: real)
    ensures elapsedSeconds >= timeLimit || timeLimit <= 0.0 ==> score == 0.0
    ensures timeLimit > 0.0 && elapsedSeconds < timeLimit ==>
      score > 0.0 && score * timeLimit == 100.0 * (timeLimit - elapsedSeconds)
    ensures timeLimit > 0.0 && elapsedSeconds == 0.0 ==> score == 100.0
    ensures 0.0 <= elapsedSeconds ==> 0.0 <= score <= 100.0
    ensures timeLimit > 0.0 && elapsedSeconds < 0.0 ==> score > 100.0
  {
    if elapsedSeconds >= timeLimit then 0.0
    else if timeLimit <= 0.0 then 0.0
    else
      var ratioRemaining := 1.0 - elapsedSeconds / timeLimit;
      var score := 100.0 * ratioRemaining;
      if score > 0.0 then score else 0.0
  }

  /** The score strictly decreases with elapsed time until the limit is reached. */
  lemma ScoreStrictlyDecreasing(e1: real, e2: real, timeLimit: real)
    requires timeLimit > 0.0 && e1 < e2 && e1 < timeLimit
    ensures CalculateScore(e1, timeLimit) > CalculateScore(e2, timeLimit)
  {
    var s1, s2 := CalculateScore(e1, timeLimit), CalculateScore(e2, timeLimit);
    if e2 < timeLimit {
      assert (s1 - s2) * timeLimit == 100.0 * (e2 - e1);
    }
  }

  // ---- answers -------------------------------------------------------------

  /** `s.lower().strip()`. */
  function Normalize(s: string): string {
    Strip(Lower(s))
  }

  /** One candidate's test in `check_answer`, on normalised strings: equal, or either
      one contained in the other. */
  predicate CandidateMatches(user: string, candidate: string) {
    user == candidate || Contains(user, candidate) || Contains(candidate, user)
  }

  /** The answer is accepted by some candidate of the list. */
  predicate AnswerAccepted(userAnswer: string, answers: seq<string>) {
    exists i :: 0 <= i < |answers| && CandidateMatches(Normalize(userAnswer), Normalize(answers[i]))
  }

  /** `get_display_answer`: the first answer exactly as stored, `""` for none. */
  function DisplayAnswer(answers: seq<string>): (s: string)
    ensures answers == [] ==> s == ""
    ensures answers != [] ==> s == answers[0]
  {
    if answers != [] then answers[0] else ""
  }

  lemma NormalizeIdempotent(s: string)
    ensures Normalize(Normalize(s)) == Normalize(s)
  {
    var l := Lower(s);
    LowerStrip(l);
    LowerIdempotent(s);
    StripIdempotent(l);
  }

  /** Acceptance looks only at the normal form of the answer: changing case or
      surrounding whitespace never changes the verdict. */
  lemma AcceptanceIgnoresCaseAndSpace(userAnswer: string, answers: seq<string>)
    ensures AnswerAccepted(Normalize(userAnswer), answers) == AnswerAccepted(userAnswer, answers)
    ensures AnswerAccepted(Lower(userAnswer), answers) == AnswerAccepted(userAnswer, answers)
  {
    NormalizeIdempotent(userAnswer);
    LowerIdempotent(userAnswer);
  }

  /** The substring rule spelled out with positions: accepted exactly when the
      normalised answer and some normalised candidate are equal or one occurs inside
      the other. */
  lemma AcceptedIffOccurs(userAnswer: string, answers: seq<string>)
    ensures AnswerAccepted(userAnswer, answers) <==>
      exists i :: 0 <= i < |answers| &&
        var u, c := Normalize(userAnswer), Normalize(answers[i]);
        u == c || (exists k :: OccursAt(u, c, k)) || (exists k :: OccursAt(c, u, k))
  {
    forall i | 0 <= i < |answers|
      ensures CandidateMatches(Normalize(userAnswer), Normalize(answers[i]))
        <==> var u, c := Normalize(userAnswer), Normalize(answers[i]);
             u == c || (exists k :: OccursAt(u, c, k)) || (exists k :: OccursAt(c, u, k))
    {
      ContainsIffOccurs(Normalize(userAnswer), Normalize(answers[i]));
      ContainsIffOccurs(Normalize(answers[i]), Normalize(userAnswer));
    }
  }

  /** An empty or all-whitespace answer is accepted by any non-empty list, since the
      empty string occurs in every candidate. */
  lemma BlankAnswerAccepted(userAnswer: string, answers: seq<string>)
    requires answers != []
    requires forall i :: 0 <= i < |userAnswer| ==> IsSpace(userAnswer[i])
    ensures AnswerAccepted(userAnswer, answers)
  {
    var l := Lower(userAnswer);
    assert forall i :: 0 <= i < |l| ==> IsSpace(l[i]) by {
      forall i | 0 <= i < |l| ensures IsSpace(l[i]) {
        assert l[i] == LowerChar(userAnswer[i]);
      }
    }
    assert Normalize(userAnswer) == "";
    assert CandidateMatches(Normalize(userAnswer), Normalize(answers[0]));
  }

  /** The worked example of a labelled image, answers ["cat", "kitten"]: "kitten"
      is accepted as equal to a candidate. */
  lemma CatExampleExact()
    ensures AnswerAccepted("kitten", ["cat", "kitten"])
  {
    var answers := ["cat", "kitten"];
    KittenNormalizes();
    assert Normalize(answers[1]) == "kitten";
    assert CandidateMatches(Normalize("kitten"), Normalize(answers[1]));
  }

  /** "my cat" is accepted because it contains the candidate "cat". */
  lemma CatExampleContained()
    ensures AnswerAccepted("my cat", ["cat", "kitten"])
  {
    var answers := ["cat", "kitten"];
    CatNormalizes();
    MyCatNormalizes();
    assert Normalize(answers[0]) == "cat";
    OccursContains("my cat", "cat", 3);
    assert CandidateMatches(Normalize("my cat"), Normalize(answers[0]));
  }

  /** "dog" matches neither candidate. */
  lemma CatExampleRejected()
    ensures !AnswerAccepted("dog", ["cat", "kitten"])
  {
    var answers := ["cat", "kitten"];
    CatWordsNormalize();
    NoCommonFirstChar("dog", "cat");
    NoCommonFirstChar("dog", "kitten");
    assert Normalize(answers[0]) == "cat" && Normalize(answers[1]) == "kitten";
  }

  lemma CatWordsNormalize()
    ensures Normalize("dog") == "dog" && Normalize("cat") == "cat" && Normalize("kitten") == "kitten"
  {
    DogNormalizes();
    CatNormalizes();
    KittenNormalizes();
  }

  lemma DogNormalizes() ensures Normalize("dog") == "dog" { PlainNormalizes("dog"); }
  lemma CatNormalizes() ensures Normalize("cat") == "cat" { PlainNormalizes("cat"); }
  lemma KittenNormalizes() ensures Normalize("kitten") == "kitten" { PlainNormalizes("kitten"); }
  lemma MyCatNormalizes() ensures Normalize("my cat") == "my cat" { PlainNormalizes("my cat"); }

  /** Two words whose first characters occur nowhere in the other word are not
      contained in each other. */
  lemma NoCommonFirstChar(a: string, b: string)
    requires a != [] && b != [] && a[0] !in b && b[0] !in a
    ensures !Contains(a, b) && !Contains(b, a)
  {
    NotContainsFirstChar(a, b);
    NotContainsFirstChar(b, a);
  }

  /** A lower-case string without surrounding whitespace is its own normal form. */
  lemma PlainNormalizes(s: string)
    requires IsLowered(s)
    requires s == [] || (!IsSpace(s[0]) && !IsSpace(s[|s| - 1]))
    ensures Normalize(s) == s
  {
    LowerOfLowered(s);
    StripOfTrimmed(s);
  }

  // ---- answers from the file name ------------------------------------------

  /** The pieces the fallback splits the file stem into: `_` read as `-`, split on `-`. */
  function StemParts(imagePath: string): (parts: seq<string>)
    ensures parts == Split(ReplaceChar(SplitExtRoot(Basename(imagePath)), '_', '-'), '-')
    ensures |parts| >= 1
    ensures |parts| >= 2 <==> '-' in SplitExtRoot(Basename(imagePath)) || '_' in SplitExtRoot(Basename(imagePath))
    ensures |parts| == 1 ==> parts[0] == SplitExtRoot(Basename(imagePath))
  {
    var stem := SplitExtRoot(Basename(imagePath));
    var dashed := ReplaceChar(stem, '_', '-');
    SplitSeveralIff(dashed, '-');
    assert '-' in dashed <==> '-' in stem || '_' in stem by {
      if '-' in stem || '_' in stem {
        var i :| 0 <= i < |stem| && (stem[i] == '-' || stem[i] == '_');
        assert dashed[i] == '-';
      }
      if '-' in dashed {
        var i :| 0 <= i < |dashed| && dashed[i] == '-';
        assert stem[i] == '-' || stem[i] == '_';
      }
    }
    var parts := Split(dashed, '-');
    assert |parts| == 1 ==> parts[0] == stem by {
      if |parts| == 1 {
        SplitJoin(dashed, '-');
        assert dashed == parts[0];
        assert forall i :: 0 <= i < |stem| ==> stem[i] == dashed[i];
      }
    }
    parts
  }

  /** The answer made of the second piece: its digits removed, then lower-cased. It
      is free of digits and of upper-case letters, no longer than the piece, and empty
      exactly when the piece is all digits. */
  function PieceAnswer(piece: string): (answer: string)
    ensures answer == Lower(RemoveDigits(piece))
    ensures IsLowered(answer) && |answer| <= |piece|
    ensures forall j :: 0 <= j < |answer| ==> !IsDigit(answer[j])
    ensures answer == [] <==> forall j :: 0 <= j < |piece| ==> IsDigit(piece[j])
  {
    var kept := RemoveDigits(piece);
    var answer := Lower(kept);
    assert forall j :: 0 <= j < |answer| ==> !IsDigit(answer[j]) by {
      forall j | 0 <= j < |answer| ensures !IsDigit(answer[j]) {
        assert answer[j] == LowerChar(kept[j]);
      }
    }
    answer
  }

  /** The answers `load_answers_from_label` derives from the file name when the label
      has none: with two or more pieces the `PieceAnswer` of the second piece, or nothing
      when that is empty; with one piece the whole stem lower-cased. */
  function FilenameAnswers(imagePath: string): seq<string> {
    var parts := StemParts(imagePath);
    if |parts| >= 2 then
      var answer := PieceAnswer(parts[1]);
      if answer != "" then [answer] else []
    else [Lower(parts[0])]
  }

  /** What the fallback produces: at most one answer, always lower-case. With two or
      more pieces, the `PieceAnswer` of the second piece, which has no digit, is no
      longer than that piece, and is missing exactly when the piece is all digits.
      With one piece, the whole stem lower-cased, digits kept. */
  lemma FilenameAnswersShape(imagePath: string)
    ensures var answers := FilenameAnswers(imagePath);
      |answers| <= 1 && forall k :: 0 <= k < |answers| ==> IsLowered(answers[k])
    ensures var answers, parts := FilenameAnswers(imagePath), StemParts(imagePath);
      |parts| >= 2 ==>
        && answers == (if PieceAnswer(parts[1]) == [] then [] else [PieceAnswer(parts[1])])
        && (answers == [] <==> forall j :: 0 <= j < |parts[1]| ==> IsDigit(parts[1][j]))
        && (forall k, j :: 0 <= k < |answers| && 0 <= j < |answers[k]| ==> !IsDigit(answers[k][j]))
        && (forall k :: 0 <= k < |answers| ==> |answers[k]| <= |parts[1]|)
    ensures |StemParts(imagePath)| == 1 ==>
      FilenameAnswers(imagePath) == [Lower(SplitExtRoot(Basename(imagePath)))]
  {
    var parts := StemParts(imagePath);
    if |parts| >= 2 {
      var answer := PieceAnswer(parts[1]);
      assert FilenameAnswers(imagePath) == if answer != "" then [answer] else [];
    }
  }

  /** No character of `s` is one of `cs`. */
  predicate Avoids(s: string, cs: set<char>) {
    forall i :: 0 <= i < |s| ==> s[i] !in cs
  }

  /** A concatenation avoids what both of its parts avoid. */
  lemma AvoidsAppend(a: string, b: string, cs: set<char>)
    requires Avoids(a, cs) && Avoids(b, cs)
    ensures Avoids(a + b, cs)
  {
    forall i | 0 <= i < |a + b| ensures (a + b)[i] !in cs {
      if i >= |a| { assert (a + b)[i] == b[i - |a|]; }
    }
  }

  /** The stem of a plain file name `stem.ext`: a stem without dots keeps everything
      before the one dot. */
  lemma StemOfPlainName(stem: string, ext: string)
    requires stem != [] && Avoids(stem, {'/', '.'}) && Avoids(ext, {'/', '.'})
    ensures SplitExtRoot(Basename(stem + "." + ext)) == stem
  {
    var p := stem + "." + ext;
    forall i | 0 <= i < |p| ensures p[i] != '/' {
      if i < |stem| { assert p[i] == stem[i]; }
      else if i > |stem| { assert p[i] == ext[i - |stem| - 1]; }
    }
    LastIndexOfAbsent(p, '/');
    LastIndexOfLastOccurrence(stem, '.', ext);
    assert p[0] == stem[0] && p[0] != '.';
    assert p[..|stem|] == stem;
  }

  /** A single-piece stem (no `-` or `_`) gives the stem lower-cased, digits kept. */
  lemma FallbackSinglePiece(stem: string, ext: string)
    requires stem != [] && Avoids(stem, {'/', '.', '-', '_'}) && Avoids(ext, {'/', '.'})
    ensures FilenameAnswers(stem + "." + ext) == [Lower(stem)]
  {
    StemOfPlainName(stem, ext);
  }

  /** A stem `first-second` gives `PieceAnswer(second)`, or nothing when that is empty. */
  lemma FallbackTwoPieces(first: string, second: string, ext: string)
    requires first != [] && Avoids(first, {'/', '.', '-', '_'}) && Avoids(second, {'/', '.', '-', '_'})
    requires Avoids(ext, {'/', '.'})
    ensures var answer := PieceAnswer(second);
      FilenameAnswers(first + "-" + second + "." + ext) == if answer == [] then [] else [answer]
  {
    var stem := first + "-" + second;
    TwoPieceStem(first, second);
    assert stem + "." + ext == first + "-" + second + "." + ext;
    StemOfPlainName(stem, ext);
  }

  /** Whatever follows it, the piece after the first separator (`-` or `_`) gives the
      answer: `PieceAnswer(second)`, or nothing when that is empty. */
  lemma FallbackSecondPiece(first: string, second: string, rest: string, ext: string, s1: char, s2: char)
    requires s1 in {'-', '_'} && s2 in {'-', '_'}
    requires first != [] && Avoids(first, {'/', '.', '-', '_'}) && Avoids(second, {'/', '.', '-', '_'})
    requires Avoids(rest, {'/', '.'}) && Avoids(ext, {'/', '.'})
    ensures var answer := PieceAnswer(second);
      FilenameAnswers(first + [s1] + second + [s2] + rest + "." + ext) == if answer == [] then [] else [answer]
  {
    var stem := first + [s1] + second + [s2] + rest;
    SeveralPieceStem(first, second, rest, s1, s2);
    assert stem + "." + ext == first + [s1] + second + [s2] + rest + "." + ext;
    StemOfPlainName(stem, ext);
  }

  /** The stem `first` `-`/`_` `second` `-`/`_` `rest` is free of `/` and `.`, and its
      first two pieces are `first` and `second`. */
  lemma SeveralPieceStem(first: string, second: string, rest: string, s1: char, s2: char)
    requires s1 in {'-', '_'} && s2 in {'-', '_'}
    requires Avoids(first, {'/', '.', '-', '_'}) && Avoids(second, {'/', '.', '-', '_'})
    requires Avoids(rest, {'/', '.'})
    ensures var stem := first + [s1] + second + [s2] + rest;
      && Avoids(stem, {'/', '.'})
      && Split(ReplaceChar(stem, '_', '-'), '-') == [first, second] + Split(ReplaceChar(rest, '_', '-'), '-')
  {
    var stem := first + [s1] + second + [s2] + rest;
    assert Avoids(stem, {'/', '.'}) by {
      assert stem == (first + [s1]) + (second + [s2]) + rest;
      AvoidsAppend(first, [s1], {'/', '.'});
      AvoidsAppend(second, [s2], {'/', '.'});
      AvoidsAppend(first + [s1], second + [s2], {'/', '.'});
      AvoidsAppend((first + [s1]) + (second + [s2]), rest, {'/', '.'});
    }
    var tail := ReplaceChar(rest, '_', '-');
    assert ReplaceChar(stem, '_', '-') == first + ['-'] + (second + ['-'] + tail);
    SplitAtFirstSeparator(second, tail, '-');
    SplitAtFirstSeparator(first, second + ['-'] + tail, '-');
  }

  /** The stem `first-second` is free of `/` and `.`, and splits into its two pieces. */
  lemma TwoPieceStem(first: string, second: string)
    requires Avoids(first, {'/', '.', '-', '_'}) && Avoids(second, {'/', '.', '-', '_'})
    ensures var stem := first + "-" + second;
      Avoids(stem, {'/', '.'}) && Split(ReplaceChar(stem, '_', '-'), '-') == [first, second]
  {
    var stem := first + "-" + second;
    assert forall i :: 0 <= i < |stem| ==> stem[i] !in {'/', '.', '_'} by {
      forall i | 0 <= i < |stem| ensures stem[i] !in {'/', '.', '_'} {
        if i < |first| { assert stem[i] == first[i]; }
        else if i > |first| { assert stem[i] == second[i - |first| - 1]; }
      }
    }
    assert ReplaceChar(stem, '_', '-') == stem;
    SplitWithoutSeparator(second, '-');
    SplitAtFirstSeparator(first, second, '-');
    assert first + ['-'] + second == stem;
  }

  /** Worked example: "bird1.png" is a single piece, so its digit stays. */
  lemma FilenameExampleSinglePiece()
    ensures FilenameAnswers("bird1.png") == ["bird1"]
  {
    ExampleSinglePieceParts();
    FallbackSinglePiece("bird1", "png");
  }

  lemma ExampleSinglePieceParts()
    ensures Avoids("bird1", {'/', '.', '-', '_'}) && Avoids("png", {'/', '.'})
    ensures "bird1" + "." + "png" == "bird1.png"
    ensures Lower("bird1") == "bird1"
  {
    LowerOfLowered("bird1");
  }

  /** Worked example: in "x-bird1.png" the second piece loses its digit. */
  lemma FilenameExampleSecondPiece()
    ensures FilenameAnswers("x-bird1.png") == ["bird"]
  {
    ExampleSecondPieceParts();
    FallbackTwoPieces("x", "bird1", "png");
    ExampleBirdPiece();
  }

  lemma ExampleSecondPieceParts()
    ensures Avoids("x", {'/', '.', '-', '_'}) && Avoids("bird1", {'/', '.', '-', '_'}) && Avoids("png", {'/', '.'})
    ensures "x" + "-" + "bird1" + "." + "png" == "x-bird1.png"
  {
  }

  lemma ExampleBirdPiece()
    ensures PieceAnswer("bird1") == "bird"
  {
    assert RemoveDigits("bird1") == "bird";
    LowerOfLowered("bird");
  }

  /** Worked example: in "cat-01.jpg" the second piece is all digits, so no answer. */
  lemma FilenameExampleDigitPiece()
    ensures FilenameAnswers("cat-01.jpg") == []
  {
    ExampleDigitPieceParts();
    FallbackTwoPieces("cat", "01", "jpg");
  }

  lemma ExampleDigitPieceParts()
    ensures Avoids("cat", {'/', '.', '-', '_'}) && Avoids("01", {'/', '.', '-', '_'}) && Avoids("jpg", {'/', '.'})
    ensures "cat" + "-" + "01" + "." + "jpg" == "cat-01.jpg"
    ensures PieceAnswer("01") == []
  {
  }

  /** Worked example: in "img_cat_01.png" the `_` separate three pieces, and the
      answer is the second one, without its digits. */
  lemma FilenameExampleUnderscores()
    ensures FilenameAnswers("img_cat_01.png") == ["cat"]
  {
    ExampleUnderscoreParts();
    FallbackSecondPiece("img", "cat", "01", "png", '_', '_');
    ExampleCatPiece();
  }

  lemma ExampleCatPiece()
    ensures PieceAnswer("cat") == "cat"
  {
    assert RemoveDigits("cat") == "cat";
    LowerOfLowered("cat");
  }

  lemma ExampleUnderscoreParts()
    ensures Avoids("img", {'/', '.', '-', '_'}) && Avoids("cat", {'/', '.', '-', '_'})
    ensures Avoids("01", {'/', '.'}) && Avoids("png", {'/', '.'})
    ensures "img" + ['_'] + "cat" + ['_'] + "01" + "." + "png" == "img_cat_01.png"
  {
  }

  /** The answers a round starts with: the label's list when it is non-empty, the
      filename fallback otherwise. */
  function ResolveAnswers(labelAnswers: seq<string>, imagePath: string): (answers: seq<string>)
    ensures labelAnswers != [] ==> answers == labelAnswers
    ensures labelAnswers == [] ==> answers == FilenameAnswers(imagePath)
  {
    if labelAnswers != [] then labelAnswers else FilenameAnswers(imagePath)
  }

  /** `[str(a).lower() for a in answers]` for a list of strings. */
  function LowerAll(items: seq<string>): (r: seq<string>)
    ensures |r| == |items|
    ensures forall k :: 0 <= k < |items| ==> r[k] == Lower(items[k])
  {
    seq(|items|, k requires 0 <= k < |items| => Lower(items[k]))
  }

  /** The list `set_answers` assigns: each element of a list lower-cased, or any other
      argument turned into its string and lower-cased into a one-element list (even when
      that is empty); `None` becomes "none". */
  function ManualAnswers(answers: Labels.AnswersArg): (r: seq<string>)
    ensures answers.AnswerList? ==> r == LowerAll(answers.items)
    ensures answers.NoAnswers? ==> r == ["none"]
    ensures answers.SingleAnswer? ==> r == [Lower(answers.text)]
    ensures forall k :: 0 <= k < |r| ==> IsLowered(r[k])
  {
    match answers
    case AnswerList(items) => LowerAll(items)
    case NoAnswers =>
      assert Lower("None") == "none";
      [Lower("None")]
    case SingleAnswer(text) => [Lower(text)]
  }

  /** The worked example of an unlabelled image: "bird1.png" yields the answer "bird1",
      which accepts "Bird" (contained in it) and is what is displayed. */
  lemma BirdExample()
    ensures ResolveAnswers([], "bird1.png") == ["bird1"]
    ensures AnswerAccepted("Bird", ["bird1"])
    ensures DisplayAnswer(["bird1"]) == "bird1"
  {
    FilenameExampleSinglePiece();
    var answers := ["bird1"];
    BirdNormalizes();
    assert Normalize(answers[0]) == "bird1";
    assert "bird" <= "bird1";
    assert CandidateMatches(Normalize("Bird"), Normalize(answers[0]));
  }

  lemma BirdNormalizes()
    ensures Normalize("Bird") == "bird" && Normalize("bird1") == "bird1"
  {
    assert Lower("Bird") == "bird";
    StripOfTrimmed("bird");
    PlainNormalizes("bird1");
  }

  /** The worked example of a blur round: with a 30 second limit, 15 seconds in, the
      progress is 0.5, the image is blurred with sigma 15 and a 91-wide kernel, and the
      score is 50. */
  lemma BlurRoundExample(image: Image)
    ensures Progress(15.0, 30.0) == 0.5
    ensures Reveal("blur", image, Progress(15.0, 30.0)) == Some(GaussianBlurred(image, 91, 15.0))
    ensures CalculateScore(15.0, 30.0) == 50.0
  {
    assert BlurSigma(0.5) == 15.0;
    assert KernelSize(15.0) == 91 by {
      assert (15.0 * 6.0).Floor == 90;
    }
  }

  // ---- the engine object ---------------------------------------------------

  class GameEngine {
    var imagePath: string
    var mode: string
    var timeLimit: real
    var originalImage: Option<Image>
    var correctAnswers: seq<string>
    var category: Labels.Value
    var hint: Labels.Value
    var labelLoader: Labels.LabelLoader

    /** `__init__` with an image that `load_image` decoded (the reading and decoding,
        and their errors, are not modelled) and the label store to consult; the mode
        defaults to "blur" and the time limit to 30 seconds. Its last step,
        `load_answers_from_label`, is written out here as the values that
        `LoadAnswersFromLabel` is proved to assign. */
    constructor (imagePath: string, image: Image, labelLoader: Labels.LabelLoader,
                 mode: string := "blur", timeLimit: real := 30.0)
      ensures this.imagePath == imagePath && this.mode == mode && this.timeLimit == timeLimit
      ensures this.labelLoader == labelLoader && originalImage == Some(image)
      ensures correctAnswers == ResolveAnswers(labelLoader.GetAnswers(imagePath), imagePath)
      ensures category == labelLoader.GetCategory(imagePath)
      ensures hint == labelLoader.GetHint(imagePath)
    {
      this.imagePath := imagePath;
      this.mode := mode;
      this.timeLimit := timeLimit;
      this.labelLoader := labelLoader;
      originalImage := Some(image);
      var labelAnswers := labelLoader.GetAnswers(imagePath);
      correctAnswers := ResolveAnswers(labelAnswers, imagePath);
      category := labelLoader.GetCategory(imagePath);
      hint := labelLoader.GetHint(imagePath);
    }

    /** `load_answers_from_label`: answers, category and hint from the store, with the
        filename fallback when the store has no answers. */
    method LoadAnswersFromLabel()
      modifies this`correctAnswers, this`category, this`hint
      ensures correctAnswers == ResolveAnswers(labelLoader.GetAnswers(imagePath), imagePath)
      ensures category == labelLoader.GetCategory(imagePath)
      ensures hint == labelLoader.GetHint(imagePath)
    {
      var loader, path := labelLoader, imagePath;
      var labelAnswers := loader.GetAnswers(path);
      var answers := labelAnswers;
      if answers == [] {
        answers := FilenameAnswers(path);
      }
      assert answers == ResolveAnswers(labelAnswers, path);
      correctAnswers, category, hint := answers, loader.GetCategory(path), loader.GetHint(path);
    }

    /** `set_answers`: replaces the answers by the lower-cased argument. */
    method SetAnswers(answers: Labels.AnswersArg)
      modifies this`correctAnswers
      ensures correctAnswers == ManualAnswers(answers)
    {
      match answers
      case AnswerList(items) =>
        correctAnswers := LowerAll(items);
      case NoAnswers =>
        correctAnswers := [Lower("None")];
      case SingleAnswer(text) =>
        correctAnswers := [Lower(text)];
    }

    /** `get_processed_image`: no original gives no image; otherwise the mode's reveal
        at the current progress, the same size as the original, and the image itself
        (or through the identity matrix) once the time limit is reached. */
    function GetProcessedImage(elapsedTime: real): (r: Option<Image>)
      reads this
      ensures SameSize(originalImage, r)
      ensures originalImage.Some? ==> r == Reveal(mode, originalImage.value, Progress(elapsedTime, timeLimit))
      ensures originalImage.Some? && (timeLimit <= 0.0 || elapsedTime >= timeLimit) ==>
        var img := originalImage.value;
        r == Some(img) || r == Some(WarpedAffine(img, Identity, Width(img), Height(img)))
      ensures originalImage.Some? && mode == "blur" && timeLimit > 0.0 && elapsedTime <= 0.0 ==>
        r == Some(GaussianBlurred(originalImage.value, 181, MaxSigma))
    {
      if originalImage.None? then None
      else
        var progress := Progress(elapsedTime, timeLimit);
        RevealCompleteAtFullProgress(mode, originalImage.value, progress);
        assert KernelSize(MaxSigma) == 181 by {
          assert (MaxSigma * 6.0).Floor == 180;
        }
        Reveal(mode, originalImage.value, progress)
    }

    /** `get_display_answer`. */
    function GetDisplayAnswer(): (s: string)
      reads this
      ensures correctAnswers == [] ==> s == ""
      ensures correctAnswers != [] ==> s == correctAnswers[0]
    {
      DisplayAnswer(correctAnswers)
    }

    /** `get_correct_answers`: the whole list. */
    method GetCorrectAnswers() returns (answers: seq<string>)
      ensures answers == correctAnswers
    {
      answers := correctAnswers;
    }

    /** `check_answer`: tries the candidates in order and stops at the first that
        matches. Never accepted with no candidates; otherwise accepted exactly when
        some candidate matches; the display answer is the first candidate as stored,
        on a hit and on a miss alike. */
    method CheckAnswer(userAnswer: string) returns (isCorrect: bool, displayAnswer: string)
      ensures correctAnswers == [] ==> !isCorrect && displayAnswer == ""
      ensures isCorrect <==> AnswerAccepted(userAnswer, correctAnswers)
      ensures displayAnswer == DisplayAnswer(correctAnswers)
    {
      if correctAnswers == [] {
        return false, "";
      }
      var userAnswerLower := Strip(Lower(userAnswer));
      assert userAnswerLower == Normalize(userAnswer);
      for i := 0 to |correctAnswers|
        invariant forall j :: 0 <= j < i ==> !CandidateMatches(userAnswerLower, Normalize(correctAnswers[j]))
      {
        var correctAnswerLower := Strip(Lower(correctAnswers[i]));
        assert correctAnswerLower == Normalize(correctAnswers[i]);
        if userAnswerLower == correctAnswerLower {
          assert CandidateMatches(userAnswerLower, Normalize(correctAnswers[i]));
          return true, GetDisplayAnswer();
        }
        if Contains(userAnswerLower, correctAnswerLower) || Contains(correctAnswerLower, userAnswerLower) {
          assert CandidateMatches(userAnswerLower, Normalize(correctAnswers[i]));
          return true, GetDisplayAnswer();
        }
      }
      return false, GetDisplayAnswer();
    }
  }
}
