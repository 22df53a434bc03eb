/** Spelling repair of attachment commands: the one-edit test and the token normalizer. */
module CommandTokens {
  import opened Text

  // ----- one edit -----

  function Without(s: string, i: nat): string
    requires i < |s|
  {
    s[..i] + s[i + 1..]
  }

  function Replaced(s: string, i: nat, c: char): (r: string)
    requires i < |s|
    ensures |r| == |s| && r[i] == c && forall k :: 0 <= k < |s| && k != i ==> r[k] == s[k]
  {
    s[i := c]
  }

  /** The characters at i and i + 1 exchanged. */
  function Swapped(s: string, i: nat): (r: string)
    requires i + 1 < |s|
    ensures |r| == |s| && r[i] == s[i + 1] && r[i + 1] == s[i]
    ensures forall k :: 0 <= k < |s| && k != i && k != i + 1 ==> r[k] == s[k]
    ensures s[i] == s[i + 1] ==> r == s
  {
    s[i := s[i + 1]][i + 1 := s[i]]
  }

  ghost predicate OneDeletion(longer: string, shorter: string) {
    exists i: nat :: i < |longer| && Without(longer, i) == shorter
  }

  ghost predicate OneSubstitution(a: string, b: string) {
    exists i: nat, c: char :: i < |a| && Replaced(a, i, c) == b
  }

  ghost predicate OneTransposition(a: string, b: string) {
    exists i: nat :: i + 1 < |a| && Swapped(a, i) == b
  }

  /** Equal, or one insertion, deletion, substitution or swap of neighbours apart. */
  ghost predicate OneEdit(a: string, b: string) {
    a == b || OneDeletion(a, b) || OneDeletion(b, a) || OneSubstitution(a, b) || OneTransposition(a, b)
  }

  lemma OneEditSymmetric(a: string, b: string)
    ensures OneEdit(a, b) <==> OneEdit(b, a)
  {
    EditsReverse(a, b);
    EditsReverse(b, a);
  }

  lemma EditsReverse(a: string, b: string)
    ensures OneSubstitution(a, b) ==> OneSubstitution(b, a)
    ensures OneTransposition(a, b) ==> OneTransposition(b, a)
  {
    if OneSubstitution(a, b) {
      var i: nat, c :| i < |a| && Replaced(a, i, c) == b;
      assert Replaced(b, i, a[i]) == a;
    }
    if OneTransposition(a, b) {
      var i: nat :| i + 1 < |a| && Swapped(a, i) == b;
      assert Swapped(b, i) == a;
    }
  }

  /** The positions where two strings of one length differ. */
  ghost predicate Differences(a: string, b: string, at: seq<nat>)
    requires |a| == |b|
  {
    && (forall k :: 0 <= k < |at| ==> at[k] < |a| && a[at[k]] != b[at[k]])
    && (forall i :: 0 <= i < |a| && a[i] != b[i] ==> i in at)
    && (forall j, k :: 0 <= j < k < |at| ==> at[j] < at[k])
  }

  method FindDifferences(a: string, b: string) returns (at: seq<nat>)
    requires |a| == |b|
    ensures Differences(a, b, at)
  {
    at := [];
    for i := 0 to |a|
      invariant forall k :: 0 <= k < |at| ==> at[k] < i && a[at[k]] != b[at[k]]
      invariant forall k :: 0 <= k < i && a[k] != b[k] ==> k in at
      invariant forall j, k :: 0 <= j < k < |at| ==> at[j] < at[k]
    {
      if a[i] != b[i] {
        at := at + [i];
      }
    }
  }

  lemma {:induction false} Spread(at: seq<nat>, k: nat)
    requires k < |at| && forall i, j :: 0 <= i < j < |at| ==> at[i] < at[j]
    ensures at[k] >= at[0] + k
  {
    if k > 0 {
      Spread(at, k - 1);
    }
  }

  lemma SubstitutionDiffersOnce(a: string, b: string, at: seq<nat>)
    requires |a| == |b| && a != b && Differences(a, b, at)
    ensures OneSubstitution(a, b) <==> |at| == 1
  {
    if |at| == 1 {
      assert Replaced(a, at[0], b[at[0]]) == b;
    }
    if OneSubstitution(a, b) {
      var i: nat, c :| i < |a| && Replaced(a, i, c) == b;
      assert a[i] != b[i];
      assert forall k :: 0 <= k < |at| ==> at[k] == i;
      Spread(at, |at| - 1);
    }
  }

  predicate Crossed(a: string, b: string, at: seq<nat>) {
    |at| == 2 && at[0] < |a| && at[1] < |a| && |a| == |b| && at[1] == at[0] + 1
    && a[at[0]] == b[at[1]] && a[at[1]] == b[at[0]]
  }

  lemma TranspositionDiffersTwice(a: string, b: string, at: seq<nat>)
    requires |a| == |b| && a != b && Differences(a, b, at)
    ensures OneTransposition(a, b) <==> Crossed(a, b, at)
  {
    if Crossed(a, b, at) {
      forall k | 0 <= k < |a|
        ensures Swapped(a, at[0])[k] == b[k]
      {
        if k != at[0] && k != at[1] {
          assert k !in at;
        }
      }
      assert Swapped(a, at[0]) == b;
    }
    if OneTransposition(a, b) {
      var i: nat :| i + 1 < |a| && Swapped(a, i) == b;
      assert a[i] != b[i] && a[i + 1] != b[i + 1];
      TwoPositions(at, i);
    }
  }

  lemma TwoPositions(at: seq<nat>, i: nat)
    requires i in at && i + 1 in at && (forall k :: 0 <= k < |at| ==> at[k] == i || at[k] == i + 1)
    requires forall j, k :: 0 <= j < k < |at| ==> at[j] < at[k]
    ensures at == [i, i + 1]
  {
    Spread(at, |at| - 1);
  }

  lemma DeletionShortens(longer: string, shorter: string)
    ensures OneDeletion(longer, shorter) ==> |longer| == |shorter| + 1
  {}

  lemma SameLengthEdits(a: string, b: string, at: seq<nat>)
    requires |a| == |b| && a != b && Differences(a, b, at)
    ensures OneEdit(a, b) <==> |at| == 1 || Crossed(a, b, at)
  {
    DeletionShortens(a, b);
    DeletionShortens(b, a);
    SubstitutionDiffersOnce(a, b, at);
    TranspositionDiffersTwice(a, b, at);
  }

  lemma LengthsApart(a: string, b: string)
    ensures OneEdit(a, b) ==> -1 <= |a| - |b| <= 1
    ensures OneEdit(a, b) && |a| == |b| + 1 ==> OneDeletion(a, b)
    ensures OneEdit(a, b) && |b| == |a| + 1 ==> OneDeletion(b, a)
  {
    DeletionShortens(a, b);
    DeletionShortens(b, a);
  }

  /** Two mismatches rule out a deletion: one at k, and one further on after skipping k. */
  lemma SecondMismatch(longer: string, shorter: string, k: nat, i: nat)
    requires |longer| == |shorter| + 1 && k <= i < |shorter|
    requires longer[k] != shorter[k] && longer[i + 1] != shorter[i]
    ensures !OneDeletion(longer, shorter)
  {
    forall j: nat | j < |longer|
      ensures Without(longer, j) != shorter
    {
      if j <= k {
        assert Without(longer, j)[i] == longer[i + 1];
      } else {
        assert Without(longer, j)[k] == longer[k];
      }
    }
  }

  /** The two-index scan of a string and one that is longer by one. */
  method SkipsOne(shorter: string, longer: string) returns (r: bool)
    requires |longer| == |shorter| + 1
    ensures r <==> OneDeletion(longer, shorter)
  {
    var i, j, skipped := 0, 0, false;
    ghost var at: nat := |shorter|;
    while i < |shorter| && j < |longer|
      invariant i <= |shorter| && j == if skipped then i + 1 else i
      invariant !skipped ==> shorter[..i] == longer[..i]
      invariant skipped ==> at <= i && at < |shorter| && shorter[at] != longer[at]
                            && shorter[..at] == longer[..at]
                            && (forall k :: at <= k < i ==> shorter[k] == longer[k + 1])
      decreases |shorter| + |longer| - i - j
    {
      if shorter[i] == longer[j] {
        i, j := i + 1, j + 1;
      } else {
        if skipped {
          SecondMismatch(longer, shorter, at, i);
          return false;
        }
        skipped := true;
        at := i;
        j := j + 1;
      }
    }
    if skipped {
      assert shorter == shorter[..at] + shorter[at..] && shorter[at..] == longer[at + 1..];
      assert Without(longer, at) == shorter;
    } else {
      assert shorter == longer[..|shorter|];
      assert Without(longer, |shorter|) == shorter;
    }
    return true;
  }

  method OneEditApart(left: string, right: string) returns (r: bool)
    ensures r <==> OneEdit(left, right)
  {
    hide OneDeletion, OneSubstitution, OneTransposition, Differences;
    if left == right {
      return true;
    }
    LengthsApart(left, right);
    if |left| - |right| > 1 || |right| - |left| > 1 {
      return false;
    }
    if |left| == |right| {
      var at := FindDifferences(left, right);
      SameLengthEdits(left, right, at);
      DifferencesInRange(left, right, at);
      if |at| == 1 {
        return true;
      }
      return |at| == 2 && at[1] == at[0] + 1 && left[at[0]] == right[at[1]] && left[at[1]] == right[at[0]];
    }
    if |left| < |right| {
      r := SkipsOne(left, right);
    } else {
      r := SkipsOne(right, left);
    }
  }

  lemma DifferencesInRange(a: string, b: string, at: seq<nat>)
    requires |a| == |b| && Differences(a, b, at)
    ensures forall k :: 0 <= k < |at| ==> at[k] < |a|
  {}

  // ----- the normalizer -----

  const ALIASES: map<string, string> := map[
    "analyse" := "analyze", "analysed" := "analyzed", "analysing" := "analyzing", "anlyze" := "analyze",
    "ths" := "this", "teh" := "the", "yhe" := "the", "credntial" := "credential", "credntials" := "credentials",
    "pasword" := "password", "paswords" := "passwords", "docment" := "document"]

  const VERBS: set<string> := {
    "analyze", "analyzed", "analyzing", "inspect", "review", "read", "scan", "extract", "identify", "classify"}

  const MORE_VERBS: set<string> := {
    "explain", "compare", "summarize", "transcribe", "describe", "understand", "find", "get", "show", "save"}

  const QUESTIONS: set<string> := {
    "what", "which", "who", "where", "when", "why", "how", "this", "that", "the"}

  const DOCUMENTS: set<string> := {
    "file", "document", "attachment", "attached", "pdf", "image", "photo", "credential", "credentials", "password"}

  const LOGINS: set<string> := {
    "passwords", "login", "logins", "username", "usernames", "account", "accounts", "pin", "pins", "secret"}

  const RECORDS: set<string> := {
    "secrets", "secure", "record", "records", "code", "codes", "identifier", "identifiers"}

  const LEXICON: set<string> := VERBS + MORE_VERBS + QUESTIONS + DOCUMENTS + LOGINS + RECORDS

  ghost function CloseWords(lowered: string): set<string> {
    set w | w in LEXICON && -1 <= |w| - |lowered| <= 1 && OneEdit(lowered, w)
  }

  /** An alias, a known or short word as it is, the only close known word, or the token. */
  ghost function Normalized(token: string): string {
    var lowered := Lower(token);
    if lowered in ALIASES then ALIASES[lowered]
    else if lowered in LEXICON || |lowered| < 4 then lowered
    else if |CloseWords(lowered)| == 1 then var w :| w in CloseWords(lowered); w
    else lowered
  }

  /** A word in lower case that is not a key of the alias table. */
  predicate Plain(w: string) {
    (forall i :: 0 <= i < |w| ==> !('A' <= w[i] <= 'Z')) && w !in ALIASES
  }

  lemma PlainIsLower(w: string)
    requires Plain(w)
    ensures Lower(w) == w
  {}

  lemma VerbsArePlain()
    ensures forall w :: w in VERBS ==> Plain(w)
  {}

  lemma MoreVerbsArePlain()
    ensures forall w :: w in MORE_VERBS ==> Plain(w)
  {}

  lemma QuestionsArePlain()
    ensures forall w :: w in QUESTIONS ==> Plain(w)
  {}

  lemma DocumentsArePlain()
    ensures forall w :: w in DOCUMENTS ==> Plain(w)
  {}

  lemma LoginsArePlain()
    ensures forall w :: w in LOGINS ==> Plain(w)
  {}

  lemma RecordsArePlain()
    ensures forall w :: w in RECORDS ==> Plain(w)
  {}

  lemma WordsArePlain()
    ensures forall w :: w in LEXICON ==> Plain(w)
  {
    hide Plain;
    VerbsArePlain();
    MoreVerbsArePlain();
    QuestionsArePlain();
    DocumentsArePlain();
    LoginsArePlain();
    RecordsArePlain();
  }

  lemma AliasesAreWords()
    ensures forall k :: k in ALIASES ==> ALIASES[k] in LEXICON
  {}

  /** A known word is left as it is. */
  lemma WordsAreSettled(w: string)
    requires w in LEXICON
    ensures Normalized(w) == w
  {
    WordsArePlain();
    PlainIsLower(w);
    hide LEXICON, ALIASES;
  }

  /** Normalizing settles a token at once: what comes out is a known word or the token in lower
      case, and normalizing it again changes nothing. */
  lemma NormalizedIsSettled(token: string)
    ensures Normalized(token) in LEXICON || Normalized(token) == Lower(token)
    ensures Normalized(Normalized(token)) == Normalized(token)
  {
    AliasesAreWords();
    LowerIdempotent(token);
    hide Lower, OneEdit;
    if Normalized(token) in LEXICON {
      WordsAreSettled(Normalized(token));
    }
  }

  /** The only known word within one edit. */
  ghost predicate IsOnlyClose(lowered: string, w: string) {
    w in LEXICON && OneEdit(lowered, w) && forall v :: v in LEXICON && OneEdit(lowered, v) ==> v == w
  }

  /** What becomes of a token: an alias is resolved; a token of fewer than four characters or a known
      word stays; any other becomes the one known word within one edit, and stays when there is none
      or more than one. */
  lemma TokenIsRepaired(token: string, w: string)
    ensures var lowered := Lower(token);
            && (lowered in ALIASES ==> Normalized(token) == ALIASES[lowered])
            && (lowered !in ALIASES && (lowered in LEXICON || |lowered| < 4) ==> Normalized(token) == lowered)
            && (lowered !in ALIASES && lowered !in LEXICON && |lowered| >= 4 ==>
                  && (IsOnlyClose(lowered, w) ==> Normalized(token) == w)
                  && (Normalized(token) != lowered ==> IsOnlyClose(lowered, Normalized(token))))
  {
    hide LEXICON, ALIASES, Lower, OneEdit;
    var lowered := Lower(token);
    if lowered !in ALIASES && lowered !in LEXICON && |lowered| >= 4 {
      CloseMeansOneEdit(lowered);
      OnlyCloseWord(lowered, w);
      if |CloseWords(lowered)| == 1 {
        var v :| v in CloseWords(lowered);
        OnlyElement(CloseWords(lowered), v);
      }
    }
  }

  lemma CloseMeansOneEdit(lowered: string)
    ensures forall v :: v in CloseWords(lowered) <==> v in LEXICON && OneEdit(lowered, v)
  {
    hide LEXICON;
    forall v | OneEdit(lowered, v)
      ensures -1 <= |v| - |lowered| <= 1
    {
      LengthsApart(lowered, v);
    }
    hide OneEdit;
  }

  lemma OnlyCloseWord(lowered: string, w: string)
    requires forall v :: v in CloseWords(lowered) <==> v in LEXICON && OneEdit(lowered, v)
    ensures IsOnlyClose(lowered, w) ==> CloseWords(lowered) == {w} && |CloseWords(lowered)| == 1
  {
    hide LEXICON, OneEdit;
    if IsOnlyClose(lowered, w) {
      assert CloseWords(lowered) == {w};
    }
  }

  lemma OnlyElement(s: set<string>, w: string)
    requires w in s && |s| == 1
    ensures s == {w}
  {
    var others := s - {w};
    assert |others| == 0;
    assert s == {w} + others;
  }

  /** Keeps the known words within one edit, in whatever order the lexicon is visited. */
  method NormalizeCommandToken(token: string) returns (r: string)
    ensures r == Normalized(token)
  {
    hide OneEdit, Lower, LEXICON, ALIASES;
    var lowered := Lower(token);
    if lowered in ALIASES {
      return ALIASES[lowered];
    }
    if lowered in LEXICON || |lowered| < 4 {
      return lowered;
    }
    var candidates: set<string> := {};
    var rest := LEXICON;
    while rest != {}
      invariant rest <= LEXICON
      invariant candidates == set w | w in LEXICON - rest && -1 <= |w| - |lowered| <= 1 && OneEdit(lowered, w)
      decreases rest
    {
      var known :| known in rest;
      rest := rest - {known};
      if -1 <= |known| - |lowered| <= 1 {
        var close := OneEditApart(lowered, known);
        if close {
          candidates := candidates + {known};
        }
      }
    }
    assert candidates == CloseWords(lowered);
    if |candidates| == 1 {
      var w :| w in candidates;
      OnlyElement(candidates, w);
      return w;
    }
    return lowered;
  }
}
