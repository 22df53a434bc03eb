/** The next free name for a duplicate upload: name.ext, then "name (1).ext" and so on, where a
    number and an extension the requested name already carries are split off first. */
module VersionedNames {
  import opened Options
  import opened Text
  import opened DecimalText

  /** A stored file: its saved name and the folder it lies in. */
  datatype Row = Row(savedName: string, folder: string)

  predicate InFolder(row: Row, folder: string) {
    Lower(Trim(row.folder)) == Lower(Trim(folder))
  }

  /** The non-empty names saved in the folder, trimmed and in lower case. */
  function TakenNames(rows: seq<Row>, folder: string): set<string> {
    set k | 0 <= k < |rows| && InFolder(rows[k], folder) && Lower(Trim(rows[k].savedName)) != ""
      :: Lower(Trim(rows[k].savedName))
  }

  /** Version 0 carries no number. */
  function Candidate(base: string, ext: string, version: nat): string {
    if version == 0 then base + ext else base + " (" + Decimal(version) + ")" + ext
  }

  predicate Free(taken: set<string>, base: string, ext: string, version: nat) {
    Lower(Candidate(base, ext, version)) !in taken
  }

  // ----- splitting the requested name -----

  function DropDigits(s: string): (t: string)
    ensures |t| <= |s|
  {
    if s != "" && IsDigit(s[0]) then DropDigits(s[1..]) else s
  }

  lemma {:induction false} DropDigitsShape(s: string)
    ensures var k := |s| - |DropDigits(s)|; s == s[..k] + DropDigits(s) && AllDigits(s[..k])
  {
    if s != "" && IsDigit(s[0]) {
      DropDigitsShape(s[1..]);
      var k := |s[1..]| - |DropDigits(s)|;
      assert s[..k + 1] == [s[0]] + s[1..][..k];
    }
  }

  function DropLastDigits(s: string): (t: string)
    ensures t <= s
  {
    if s != "" && IsDigit(s[|s| - 1]) then DropLastDigits(s[..|s| - 1]) else s
  }

  /** A dot and one to twelve characters, none of them a dot, a slash or white space. */
  predicate IsExt(s: string) {
    && 2 <= |s| <= 13 && s[0] == '.'
    && forall i :: 1 <= i < |s| ==> s[i] != '.' && s[i] != '/' && !IsSpace(s[i])
  }

  predicate ExtOrNone(s: string) { s == "" || IsExt(s) }

  /** What may follow the base: a number in parentheses or none, then an extension or none. The
      result is the extension. */
  function Ending(rest: string): Option<string> {
    if ExtOrNone(rest) then Some(rest) else Numbered(TrimLeft(rest))
  }

  function Numbered(bracket: string): Option<string> {
    if bracket == "" || bracket[0] != '(' then None
    else
      var closed := DropDigits(bracket[1..]);
      if |closed| < |bracket| - 1 && closed != "" && closed[0] == ')' && ExtOrNone(closed[1..])
        then Some(closed[1..]) else None
  }

  /** The shortest beginning of the name, of at least the given length and without a line feed,
      whose rest is such an ending; and the extension. */
  function Shortest(name: string, length: nat): Option<(string, string)>
    requires 1 <= length
    decreases |name| - length
  {
    if length > |name| || name[length - 1] == '\n' then None
    else if Ending(name[length..]).Some? then Some((name[..length], Ending(name[length..]).value))
    else Shortest(name, length + 1)
  }

  predicate EndsInNumber(s: string) {
    s != "" && s[|s| - 1] == ')'
    && var inner := s[..|s| - 1];
    var bracket := DropLastDigits(inner);
    |bracket| < |inner| && bracket != "" && bracket[|bracket| - 1] == '('
  }

  /** A number at the end of the base goes as well. */
  function WithoutNumber(base: string): string {
    if EndsInNumber(base) then
      var bracket := DropLastDigits(base[..|base| - 1]);
      Trim(bracket[..|bracket| - 1])
    else base
  }

  /** The base and the extension of a requested name; the name itself where no base is left. */
  function Split(requested: string): (string, string) {
    var name := Trim(requested);
    match Shortest(name, 1)
    case None => (name, "")
    case Some((base, ext)) =>
      var plain := WithoutNumber(Trim(base));
      (if plain == "" then name else plain, ext)
  }

  function BaseOf(requested: string): string {
    if Split(requested).0 == "" then "file" else Split(requested).0
  }

  function ExtOf(requested: string): string { Split(requested).1 }

  predicate Clean(s: string) {
    s != "" && !IsSpace(s[0]) && !IsSpace(s[|s| - 1])
  }

  lemma {:induction false} ShortestShape(name: string, length: nat)
    requires 1 <= length
    ensures match Shortest(name, length)
            case None => true
            case Some((base, ext)) => ExtOrNone(ext) && base != "" && base <= name
    decreases |name| - length
  {
    hide IsExt, TrimLeft;
    if length <= |name| && name[length - 1] != '\n' && Ending(name[length..]).None? {
      ShortestShape(name, length + 1);
    }
  }

  lemma SplitShape(requested: string)
    ensures Clean(BaseOf(requested)) && ExtOrNone(ExtOf(requested))
  {
    hide Shortest, TrimLeft, TrimRight;
    ShortestShape(Trim(requested), 1);
    assert !IsSpace("file"[0]);
  }

  // ----- a numbered name is split into what it was made of -----

  predicate Dense(s: string) {
    forall i :: 0 <= i < |s| ==> !IsSpace(s[i])
  }

  lemma DenseParts(a: string, b: string)
    requires Dense(a) && Dense(b)
    ensures Dense(a + b)
  {}

  lemma DigitsAreDense(digits: string)
    requires AllDigits(digits)
    ensures Dense(digits)
  {}

  lemma ExtIsDense(ext: string)
    requires ExtOrNone(ext)
    ensures Dense(ext)
  {}

  lemma NumberedIsDense(bracket: string)
    requires Numbered(bracket).Some?
    ensures Dense(bracket)
  {
    var inner, closed := bracket[1..], DropDigits(bracket[1..]);
    DropDigitsShape(inner);
    var digits := inner[..|inner| - |closed|];
    assert bracket == "(" + (digits + (")" + closed[1..]));
    DigitsAreDense(digits);
    ExtIsDense(closed[1..]);
    hide Numbered, ExtOrNone, AllDigits;
    assert Dense("(") && Dense(")");
    hide Dense;
    DenseParts(")", closed[1..]);
    DenseParts(digits, ")" + closed[1..]);
    DenseParts("(", digits + (")" + closed[1..]));
  }

  /** An ending has its white space in front. */
  lemma SpacesFirst(rest: string, i: nat, j: nat)
    requires Ending(rest).Some? && i < j < |rest| && IsSpace(rest[j])
    ensures IsSpace(rest[i])
  {
    hide Numbered, TrimLeft;
    if !ExtOrNone(rest) {
      var bracket := TrimLeft(rest);
      TrimLeftDrops(rest);
      NumberedIsDense(bracket);
      var spaces := |rest| - |bracket|;
      assert forall k :: spaces <= k < |rest| ==> rest[k] == bracket[k - spaces];
    }
  }

  /** No beginning shorter than the base will do when white space follows it. */
  lemma {:induction false} ShortestIsBase(base: string, rest: string, length: nat)
    requires Clean(base) && rest != "" && IsSpace(rest[0]) && Ending(rest).Some?
    requires 1 <= length <= |base|
    ensures Shortest(base + rest, length) ==
            if '\n' in base[length - 1..] then None else Some((base, Ending(rest).value))
    decreases |base| - length
  {
    hide Ending, IsSpace;
    var name := base + rest;
    var ahead := base[length - 1..];
    assert ahead == [base[length - 1]] + base[length..];
    assert name[length - 1] == base[length - 1];
    if length == |base| {
      assert name[length..] == rest && name[..length] == base;
    } else if base[length - 1] != '\n' {
      if Ending(name[length..]).Some? {
        var tail := name[length..];
        assert tail[|base| - 1 - length] == base[|base| - 1] && tail[|base| - length] == rest[0];
        SpacesFirst(tail, |base| - 1 - length, |base| - length);
        assert false;
      }
      ShortestIsBase(base, rest, length + 1);
    }
  }

  lemma {:induction false} DropAllDigits(digits: string, rest: string)
    requires AllDigits(digits) && (rest == "" || !IsDigit(rest[0]))
    ensures DropDigits(digits + rest) == rest
  {
    if digits == "" {
      assert digits + rest == rest;
    } else {
      assert (digits + rest)[1..] == digits[1..] + rest;
      DropAllDigits(digits[1..], rest);
    }
  }

  lemma NumberIsEnding(n: nat, ext: string)
    requires ExtOrNone(ext)
    ensures Ending(" (" + Decimal(n) + ")" + ext) == Some(ext)
  {
    hide Decimal;
    var rest, closed := " (" + Decimal(n) + ")" + ext, ")" + ext;
    var bracket := "(" + Decimal(n) + closed;
    assert rest == " " + bracket && rest[1..] == bracket;
    assert TrimLeft(bracket) == bracket;
    assert TrimLeft(rest) == bracket;
    assert !ExtOrNone(rest);
    assert bracket[1..] == Decimal(n) + closed;
    DropAllDigits(Decimal(n), closed);
    assert closed[1..] == ext;
  }

  lemma WithoutNumberIsShorter(base: string)
    ensures if EndsInNumber(base) then |WithoutNumber(base)| < |base| else WithoutNumber(base) == base
  {}

  lemma CandidateIsTrimmed(base: string, ext: string, version: nat)
    requires Clean(base) && ExtOrNone(ext) && version > 0
    ensures Trim(Candidate(base, ext, version)) == Candidate(base, ext, version)
  {
    hide Decimal, Trim;
    var name := Candidate(base, ext, version);
    assert name[0] == base[0];
    assert ext != "" ==> name[|name| - 1] == ext[|ext| - 1];
    TrimClean(name);
  }

  /** Versions of a requested name are versions of each other: a numbered candidate is split into
      the same base and extension if and only if the base has neither a number at its end, which
      the next split would take off, nor a line feed. */
  lemma NumberedSplitsBack(requested: string, version: nat)
    requires version > 0
    ensures var base, ext := BaseOf(requested), ExtOf(requested);
            Split(Candidate(base, ext, version)) == (base, ext) <==> !EndsInNumber(base) && '\n' !in base
  {
    SplitShape(requested);
    var base, ext := BaseOf(requested), ExtOf(requested);
    SplitOfNumbered(base, ext, version);
  }

  lemma SplitOfNumbered(base: string, ext: string, version: nat)
    requires Clean(base) && ExtOrNone(ext) && version > 0
    ensures Split(Candidate(base, ext, version)) == (base, ext) <==> !EndsInNumber(base) && '\n' !in base
  {
    hide Ending, Shortest, Decimal, WithoutNumber, Trim, EndsInNumber, Clean, ExtOrNone, IsExt;
    var rest := " (" + Decimal(version) + ")" + ext;
    CandidateIsTrimmed(base, ext, version);
    assert Candidate(base, ext, version) == base + rest;
    hide Candidate;
    NumberIsEnding(version, ext);
    BaseIsTrimmed(base);
    ShortestIsBase(base, rest, 1);
    WithoutNumberIsShorter(base);
    assert base[0..] == base;
    assert |base + rest| > |base|;
  }

  lemma BaseIsTrimmed(base: string)
    requires Clean(base)
    ensures base != "" && Trim(base) == base
  {
    TrimClean(base);
  }

  // ----- what the split means -----

  predicate NumberThen(rest: string, spaces: string, digits: string, ext: string) {
    && rest == spaces + ("(" + (digits + (")" + ext))) && AllSpace(spaces)
    && digits != "" && AllDigits(digits) && ExtOrNone(ext)
  }

  /** The rest of a name is this extension or none, behind a number in parentheses or none. */
  ghost predicate IsEnding(rest: string, ext: string) {
    (rest == ext && ExtOrNone(ext)) || exists spaces, digits :: NumberThen(rest, spaces, digits, ext)
  }

  lemma EndingExactly(rest: string, ext: string)
    ensures Ending(rest) == Some(ext) <==> IsEnding(rest, ext)
  {
    hide IsExt, DropDigits, TrimLeft;
    if spaces, digits :| NumberThen(rest, spaces, digits, ext) {
      NumberedIsRead(rest, spaces, digits, ext);
    }
    if Ending(rest) == Some(ext) && !ExtOrNone(rest) {
      var bracket := TrimLeft(rest);
      TrimLeftDrops(rest);
      var digits := NumberedParts(bracket, ext);
      hide NumberThen, Ending, ExtOrNone, AllSpace, AllDigits;
      EndingIsNumbered(rest, rest[..|rest| - |bracket|], digits, ext, bracket);
    }
  }

  lemma NumberedParts(bracket: string, ext: string) returns (digits: string)
    requires Numbered(bracket) == Some(ext)
    ensures bracket == "(" + (digits + (")" + ext)) && digits != "" && AllDigits(digits) && ExtOrNone(ext)
  {
    hide IsExt;
    var closed := DropDigits(bracket[1..]);
    DropDigitsShape(bracket[1..]);
    digits := bracket[1..][..|bracket| - 1 - |closed|];
    assert closed == ")" + ext;
    assert bracket[1..] == digits + closed;
  }

  lemma EndingIsNumbered(rest: string, spaces: string, digits: string, ext: string, bracket: string)
    requires rest == spaces + bracket && AllSpace(spaces) && bracket == "(" + (digits + (")" + ext))
    requires digits != "" && AllDigits(digits) && ExtOrNone(ext)
    ensures NumberThen(rest, spaces, digits, ext)
  {
    hide AllSpace, AllDigits, ExtOrNone;
  }

  lemma NumberedIsRead(rest: string, spaces: string, digits: string, ext: string)
    requires NumberThen(rest, spaces, digits, ext)
    ensures Ending(rest) == Some(ext)
  {
    var bracket := "(" + (digits + (")" + ext));
    assert rest == spaces + bracket && rest != "" && rest[0] != '.' && AllSpace(spaces);
    assert !ExtOrNone(rest);
    BracketIsRead(digits, ext);
    hide NumberThen, AllSpace, ExtOrNone, TrimLeft, Numbered;
    TrimLeftAll(spaces, bracket);
  }

  lemma BracketIsRead(digits: string, ext: string)
    requires digits != "" && AllDigits(digits) && ExtOrNone(ext)
    ensures Numbered("(" + (digits + (")" + ext))) == Some(ext)
  {
    hide ExtOrNone, AllDigits;
    var closed := ")" + ext;
    var bracket := "(" + (digits + closed);
    assert bracket[1..] == digits + closed && closed[1..] == ext;
    DropAllDigits(digits, closed);
  }

  /** The shortest base without a line feed that leaves an ending. */
  ghost predicate IsMatch(name: string, base: string, ext: string) {
    && base != "" && base <= name && '\n' !in base && IsEnding(name[|base|..], ext)
    && forall k, e :: 1 <= k < |base| ==> !IsEnding(name[k..], e)
  }

  lemma {:induction false} ShortestFrom(name: string, length: nat)
    requires 1 <= length && (length <= |name| + 1 ==> '\n' !in name[..length - 1])
    requires forall k :: 1 <= k < length && k <= |name| ==> Ending(name[k..]).None?
    ensures match Shortest(name, length)
            case Some((base, ext)) =>
              && length <= |base| && base <= name && '\n' !in base && Ending(name[|base|..]) == Some(ext)
              && forall k :: 1 <= k < |base| ==> Ending(name[k..]).None?
            case None =>
              forall base :: base != "" && base <= name && '\n' !in base ==> Ending(name[|base|..]).None?
    decreases |name| - length
  {
    hide Ending;
    if length <= |name| {
      assert name[..length] == name[..length - 1] + [name[length - 1]];
      if name[length - 1] == '\n' {
        forall base | base != "" && base <= name && '\n' !in base
          ensures |base| < length
        {
          LineFeedReached(name, base, length);
        }
      } else if Ending(name[length..]).None? {
        ShortestFrom(name, length + 1);
      }
    }
  }

  lemma LineFeedReached(name: string, base: string, length: nat)
    requires base <= name && 1 <= length <= |name| && name[length - 1] == '\n'
    ensures |base| >= length ==> '\n' in base
  {
    assert |base| >= length ==> base[length - 1] == name[length - 1];
  }

  lemma MatchExactly(name: string, base: string, ext: string)
    ensures Shortest(name, 1) == Some((base, ext)) <==> IsMatch(name, base, ext)
  {
    ShortestFrom(name, 1);
    MatchMeans(name, base, ext);
    hide Ending, IsMatch, Shortest;
    if IsMatch(name, base, ext) && Shortest(name, 1).Some? {
      SameBeginning(name, base, Shortest(name, 1).value.0);
    }
  }

  lemma SameBeginning(name: string, a: string, b: string)
    requires a <= name && b <= name
    ensures |a| == |b| ==> a == b
  {}

  lemma MatchMeans(name: string, base: string, ext: string)
    ensures IsMatch(name, base, ext) <==>
            && base != "" && base <= name && '\n' !in base && Ending(name[|base|..]) == Some(ext)
            && forall k :: 1 <= k < |base| ==> Ending(name[k..]).None?
  {
    hide Ending, IsEnding;
    if base <= name {
      EndingExactly(name[|base|..], ext);
      forall k | 1 <= k < |base|
        ensures Ending(name[k..]).None? <==> forall e :: !IsEnding(name[k..], e)
      {
        EndingNone(name[k..]);
      }
    }
  }

  lemma EndingNone(rest: string)
    ensures Ending(rest).None? <==> forall e :: !IsEnding(rest, e)
  {
    hide Ending, IsEnding;
    forall e
      ensures Ending(rest) == Some(e) <==> IsEnding(rest, e)
    {
      EndingExactly(rest, e);
    }
    if Ending(rest).Some? {
      assert IsEnding(rest, Ending(rest).value);
    }
  }

  predicate IsNumbered(s: string, front: string, digits: string) {
    s == front + ("(" + (digits + ")")) && digits != "" && AllDigits(digits)
  }

  /** The text without the number at its end, if it has one. */
  ghost predicate IsPlain(s: string, plain: string) {
    if exists front, digits :: IsNumbered(s, front, digits)
    then exists front, digits :: IsNumbered(s, front, digits) && plain == Trim(front)
    else plain == s
  }

  lemma {:induction false} DropLastShape(s: string)
    ensures var t := DropLastDigits(s);
            s == t + s[|t|..] && AllDigits(s[|t|..]) && (t != "" ==> !IsDigit(t[|t| - 1]))
  {
    if s != "" && IsDigit(s[|s| - 1]) {
      DropLastShape(s[..|s| - 1]);
      var t := DropLastDigits(s);
      assert s[|t|..] == s[..|s| - 1][|t|..] + [s[|s| - 1]];
    }
  }

  lemma {:induction false} DropLastAll(front: string, digits: string)
    requires AllDigits(digits) && (front == "" || !IsDigit(front[|front| - 1]))
    ensures DropLastDigits(front + digits) == front
  {
    if digits == "" {
      assert front + digits == front;
    } else {
      assert (front + digits)[..|front + digits| - 1] == front + digits[..|digits| - 1];
      DropLastAll(front, digits[..|digits| - 1]);
    }
  }

  lemma NumberedIsDropped(s: string, front: string, digits: string)
    requires IsNumbered(s, front, digits)
    ensures EndsInNumber(s) && WithoutNumber(s) == Trim(front)
  {
    hide Trim, DropLastDigits;
    var inner := s[..|s| - 1];
    assert inner == (front + "(") + digits;
    DropLastAll(front + "(", digits);
    assert (front + "(")[..|front|] == front;
  }

  lemma PlainExactly(s: string)
    ensures IsPlain(s, WithoutNumber(s))
  {
    hide Trim, DropLastDigits;
    if EndsInNumber(s) {
      var inner := s[..|s| - 1];
      var bracket := DropLastDigits(inner);
      DropLastShape(inner);
      assert IsNumbered(s, bracket[..|bracket| - 1], inner[|bracket|..]);
    } else if front, digits :| IsNumbered(s, front, digits) {
      NumberedIsDropped(s, front, digits);
    }
  }

  /** What the split yields: the extension of the shortest match and its base without a number, or
      the trimmed name where that leaves nothing or nothing matches. */
  lemma SplitExactly(requested: string, base: string, ext: string)
    ensures var name := Trim(requested);
            && (IsMatch(name, base, ext) ==>
                  ExtOf(requested) == ext
                  && exists plain :: IsPlain(Trim(base), plain)
                                     && Split(requested).0 == if plain == "" then name else plain)
            && ((forall b, e :: !IsMatch(name, b, e)) ==> Split(requested) == (name, ""))
  {
    hide IsMatch, IsPlain, WithoutNumber, Trim, Shortest;
    var name := Trim(requested);
    MatchExactly(name, base, ext);
    PlainExactly(Trim(base));
    if Shortest(name, 1).Some? {
      MatchExactly(name, Shortest(name, 1).value.0, Shortest(name, 1).value.1);
    }
  }

  // ----- the names already there -----

  /** The saved names of the folder. */
  method CollectNames(rows: seq<Row>, folder: string) returns (taken: set<string>)
    ensures taken == TakenNames(rows, folder)
  {
    taken := {};
    for i := 0 to |rows|
      invariant taken == TakenNames(rows[..i], folder)
    {
      hide Lower, Trim;
      TakenGrow(rows, folder, i);
      var saved := Lower(Trim(rows[i].savedName));
      if InFolder(rows[i], folder) && saved != "" {
        taken := taken + {saved};
      }
    }
    assert rows[..|rows|] == rows;
  }

  lemma TakenGrow(rows: seq<Row>, folder: string, i: nat)
    requires i < |rows|
    ensures TakenNames(rows[..i + 1], folder) == TakenNames(rows[..i], folder)
              + if InFolder(rows[i], folder) && Lower(Trim(rows[i].savedName)) != ""
                then {Lower(Trim(rows[i].savedName))} else {}
  {
    hide Lower, Trim, InFolder;
    var more, less := rows[..i + 1], rows[..i];
    assert forall k :: 0 <= k < i ==> more[k] == less[k];
    forall name | name in TakenNames(more, folder) && !(InFolder(rows[i], folder)
      && Lower(Trim(rows[i].savedName)) == name)
      ensures name in TakenNames(less, folder)
    {
      var k :| 0 <= k < |more| && InFolder(more[k], folder) && Lower(Trim(more[k].savedName)) == name;
      assert less[k] == more[k];
    }
    forall name | name in TakenNames(less, folder)
      ensures name in TakenNames(more, folder)
    {
      var k :| 0 <= k < |less| && InFolder(less[k], folder) && Lower(Trim(less[k].savedName)) == name;
      assert less[k] == more[k];
    }
    assert more[i] == rows[i];
  }

  // ----- numbered candidates are all different -----

  lemma LowerDigits(s: string)
    requires AllDigits(s)
    ensures Lower(s) == s
  {}

  lemma LowerCandidate(base: string, ext: string, version: nat)
    requires version > 0
    ensures Lower(Candidate(base, ext, version)) == Lower(base) + " (" + Decimal(version) + ")" + Lower(ext)
  {
    var n := Decimal(version);
    LowerDigits(n);
    LowerAppend(base + " (" + n + ")", ext);
    LowerAppend(base + " (" + n, ")");
    LowerAppend(base + " (", n);
    LowerAppend(base, " (");
    hide Lower, Decimal;
    LowerPunctuation();
  }

  lemma LowerPunctuation()
    ensures Lower(" (") == " (" && Lower(")") == ")"
  {}

  /** What lies between a common beginning and a common end is determined by the whole. */
  lemma MiddleDetermined(a: string, x: string, y: string, z: string)
    requires a + x + z == a + y + z
    ensures x == y
  {
    var s, t := a + x + z, a + y + z;
    assert |s| == |a| + |x| + |z| && |t| == |a| + |y| + |z|;
    assert s[|a|..|a| + |x|] == x && t[|a|..|a| + |y|] == y;
  }

  lemma NumberedDiffer(base: string, ext: string, m: nat, n: nat)
    requires m > 0 && n > 0 && Lower(Candidate(base, ext, m)) == Lower(Candidate(base, ext, n))
    ensures m == n
  {
    LowerCandidate(base, ext, m);
    LowerCandidate(base, ext, n);
    hide Lower, Decimal, Candidate;
    var a, z := Lower(base) + " (", ")" + Lower(ext);
    assert a + Decimal(m) + z == Lower(base) + " (" + Decimal(m) + ")" + Lower(ext);
    assert a + Decimal(n) + z == Lower(base) + " (" + Decimal(n) + ")" + Lower(ext);
    MiddleDetermined(a, Decimal(m), Decimal(n), z);
    DecimalInjective(m, n);
  }

  lemma PlainDiffers(base: string, ext: string, n: nat)
    requires n > 0
    ensures Lower(Candidate(base, ext, n)) != Lower(Candidate(base, ext, 0))
  {
    assert |Candidate(base, ext, n)| > |Candidate(base, ext, 0)|;
  }

  lemma CandidatesDiffer(base: string, ext: string, m: nat, n: nat)
    requires m < n
    ensures Lower(Candidate(base, ext, m)) != Lower(Candidate(base, ext, n))
  {
    hide Lower, Candidate;
    if m == 0 {
      PlainDiffers(base, ext, n);
    } else if Lower(Candidate(base, ext, m)) == Lower(Candidate(base, ext, n)) {
      NumberedDiffer(base, ext, m, n);
    }
  }

  /** The first so many candidates, in lower case. */
  function Candidates(base: string, ext: string, count: nat): set<string> {
    set n | 0 <= n < count :: Lower(Candidate(base, ext, n))
  }

  lemma {:induction false} CandidatesCount(base: string, ext: string, count: nat)
    ensures |Candidates(base, ext, count)| == count
  {
    hide Lower, Candidate;
    if count > 0 {
      var fewer, last := Candidates(base, ext, count - 1), Lower(Candidate(base, ext, count - 1));
      CandidatesCount(base, ext, count - 1);
      assert Candidates(base, ext, count) == fewer + {last};
      forall n | 0 <= n < count - 1
        ensures Lower(Candidate(base, ext, n)) != last
      {
        CandidatesDiffer(base, ext, n, count - 1);
      }
      assert last !in fewer;
    }
  }

  lemma SubsetIsNoBigger(a: set<string>, b: set<string>)
    requires a <= b
    ensures |a| <= |b|
  {
    assert b == a + (b - a);
  }

  /** Fewer taken names than candidates leave a candidate free. */
  lemma SomeCandidateIsFree(taken: set<string>, base: string, ext: string, count: nat)
    requires |taken| < count
    ensures exists n: nat :: n < count && Free(taken, base, ext, n)
  {
    hide Lower, Candidate;
    CandidatesCount(base, ext, count);
    if Candidates(base, ext, count) <= taken {
      SubsetIsNoBigger(Candidates(base, ext, count), taken);
    } else {
      var name :| name in Candidates(base, ext, count) && name !in taken;
      var n: nat :| n < count && Lower(Candidate(base, ext, n)) == name;
      assert Free(taken, base, ext, n);
    }
  }

  // ----- the search -----

  /** The least version from a starting one on that is free, below the limit. */
  function LeastFree(taken: set<string>, base: string, ext: string, from: nat, limit: nat): (n: Option<nat>)
    ensures n.Some? ==> from <= n.value < limit && Free(taken, base, ext, n.value)
                        && forall k: nat :: from <= k < n.value ==> !Free(taken, base, ext, k)
    ensures n.None? ==> forall k: nat :: from <= k < limit ==> !Free(taken, base, ext, k)
    decreases limit - from
  {
    if from >= limit then None
    else if Free(taken, base, ext, from) then Some(from)
    else LeastFree(taken, base, ext, from + 1, limit)
  }

  method NextAvailable(rows: seq<Row>, requested: string, folder: string) returns (name: string)
    ensures var taken, base, ext := TakenNames(rows, folder), BaseOf(requested), ExtOf(requested);
            match LeastFree(taken, base, ext, 0, 1000)
            case Some(version) => name == Candidate(base, ext, version)
            case None => name == base + " (many)" + ext
    ensures |TakenNames(rows, folder)| < 1000 ==> Lower(name) !in TakenNames(rows, folder)
  {
    hide Lower, Candidate, TakenNames, Split;
    var stem, ext := BaseOf(requested), ExtOf(requested);
    var taken := CollectNames(rows, folder);
    if |taken| < 1000 {
      SomeCandidateIsFree(taken, stem, ext, 1000);
    }
    if Free(taken, stem, ext, 0) {
      return Candidate(stem, ext, 0);
    }
    for n := 1 to 1000
      invariant forall k: nat :: k < n ==> !Free(taken, stem, ext, k)
    {
      if Free(taken, stem, ext, n) {
        return Candidate(stem, ext, n);
      }
    }
    return stem + " (many)" + ext;
  }

  /** A file of that folder is stored under this name. */
  ghost predicate IsStored(rows: seq<Row>, folder: string, name: string) {
    exists i :: 0 <= i < |rows| && Lower(Trim(rows[i].folder)) == Lower(Trim(folder))
                && Lower(Trim(rows[i].savedName)) == Lower(name)
  }

  /** A version is free exactly when no file of the folder, however its folder's name is spelled, is
      stored under its candidate. */
  lemma FreeMeansNotStored(rows: seq<Row>, folder: string, base: string, ext: string, version: nat)
    requires base != ""
    ensures Free(TakenNames(rows, folder), base, ext, version) <==>
            !IsStored(rows, folder, Candidate(base, ext, version))
  {
    assert Candidate(base, ext, version) != "";
    hide Lower, Trim, Candidate;
    LowerIsNotEmpty(Candidate(base, ext, version));
  }

  /** So the version found is the least whose candidate no file of the folder is stored under. */
  lemma LeastFreeIsNotStored(rows: seq<Row>, folder: string, base: string, ext: string, limit: nat)
    requires base != ""
    ensures match LeastFree(TakenNames(rows, folder), base, ext, 0, limit)
            case Some(version) =>
              && version < limit && !IsStored(rows, folder, Candidate(base, ext, version))
              && forall k: nat :: k < version ==> IsStored(rows, folder, Candidate(base, ext, k))
            case None => forall k: nat :: k < limit ==> IsStored(rows, folder, Candidate(base, ext, k))
  {
    hide Lower, Trim, Candidate, Free, TakenNames, IsStored;
    forall version: nat
      ensures Free(TakenNames(rows, folder), base, ext, version) <==>
              !IsStored(rows, folder, Candidate(base, ext, version))
    {
      FreeMeansNotStored(rows, folder, base, ext, version);
    }
  }

  lemma LowerIsNotEmpty(s: string)
    requires s != ""
    ensures Lower(s) != ""
  {
    assert |Lower(s)| == |s|;
  }

  /** The search gives up exactly when all thousand candidates are taken, which takes at least a
      thousand names. */
  lemma ReturnedNameIsFree(taken: set<string>, base: string, ext: string)
    ensures LeastFree(taken, base, ext, 0, 1000).None? <==> Candidates(base, ext, 1000) <= taken
    ensures |taken| < 1000 ==> LeastFree(taken, base, ext, 0, 1000).Some?
  {
    hide Lower, Candidate;
    var limit := 1000;
    if |taken| < limit {
      SomeCandidateIsFree(taken, base, ext, limit);
    }
    var least := LeastFree(taken, base, ext, 0, limit);
    if least.Some? {
      assert Lower(Candidate(base, ext, least.value)) in Candidates(base, ext, limit);
    } else {
      forall name | name in Candidates(base, ext, limit)
        ensures name in taken
      {
        var n: nat :| n < limit && Lower(Candidate(base, ext, n)) == name;
        assert !Free(taken, base, ext, n);
      }
    }
  }
}
