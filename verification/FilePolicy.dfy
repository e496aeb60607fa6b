/** The owner-only DACL of src/file_policy.rs, written and read back in SDDL, the string
    form of a security descriptor ([MS-DTYP] section 2.5.1). */
module FilePolicy {
  import opened Wrappers
  import opened Text

  datatype Inheritance = No | Yes

  datatype Defect =
    | NoDacl
    | NotProtected
    | Unclosed
    | TooFewFields(count: nat)
    | Inherited(inheritedAce: nat)
    | Stranger(strangerAce: nat, trustee: string)
    | NoAces

  /** One access-control entry: `(type;flags;rights;object;inheritedObject;trustee)`. */
  type Ace = fields: seq<string> | |fields| >= 1 witness [""]

  const FLAGS := 1
  const TRUSTEE := 5
  const ACE_FIELDS := 6

  // --- the writer ---

  /** One entry allowing full access to one trustee. */
  function Allow(flags: string, trustee: string): string {
    "(A;" + flags + ";FA;;;" + trustee + ")"
  }

  function OwnerOnlySddl(sid: string, inheritance: Inheritance): string {
    var flags := if inheritance.No? then "" else "OICI";
    "D:P" + Allow(flags, "SY") + Allow(flags, "BA") + Allow(flags, sid)
  }

  // --- the alias of a well-known account ---

  /** What follows the last occurrence of the character, if there is one. */
  function AfterLast(s: string, c: char): Option<string> {
    if c !in s then None
    else if c in s[1..] then AfterLast(s[1..], c)
    else Some(s[1..])
  }

  /** `sddl_alias_for`. */
  function SddlAliasFor(sid: string): Option<string> {
    if !StartsWith(sid, "S-1-5-21-") then None
    else
      match AfterLast(sid, '-')
      case Some(rid) => if rid == "500" then Some("LA") else if rid == "501" then Some("LG") else None
      case None => None
  }

  lemma {:induction false} AfterLastIs(s: string, c: char, tail: string)
    requires c !in tail
    ensures AfterLast(s, c) == Some(tail) <==> EndsWith(s, [c] + tail)
  {
    if s != "" {
      var suffix := [c] + tail;
      if |suffix| < |s| {
        assert s[|s| - |suffix|..] == s[1..][|s[1..]| - |suffix|..];
        if EndsWith(s, suffix) { assert s[|s| - |suffix|] == c && c in s[1..]; }
      } else if |suffix| == |s| {
        assert s[0..] == s;
        if s == suffix { assert s[1..] == tail; }
        if AfterLast(s, c) == Some(tail) { AfterLastIsShorter(s, c); }
      } else {
        if c in s { AfterLastIsShorter(s, c); }
      }
      if c in s[1..] { AfterLastIs(s[1..], c, tail); }
    }
  }

  lemma {:induction false} AfterLastIsShorter(s: string, c: char)
    requires c in s
    ensures AfterLast(s, c).Some? && |AfterLast(s, c).value| < |s|
    ensures |AfterLast(s, c).value| == |s| - 1 ==> s == [c] + AfterLast(s, c).value
  {
    if c in s[1..] { AfterLastIsShorter(s[1..], c); }
  }

  /** An alias stands for exactly the machine- or domain-relative accounts 500 and 501. */
  lemma AliasStandsForItsAccount(sid: string)
    ensures SddlAliasFor(sid) == Some("LA") <==> StartsWith(sid, "S-1-5-21-") && EndsWith(sid, "-500")
    ensures SddlAliasFor(sid) == Some("LG") <==> StartsWith(sid, "S-1-5-21-") && EndsWith(sid, "-501")
    ensures SddlAliasFor(sid) in {None, Some("LA"), Some("LG")}
  {
    AfterLastIs(sid, '-', "500");
    AfterLastIs(sid, '-', "501");
    assert ['-'] + "500" == "-500" && ['-'] + "501" == "-501";
  }

  // --- the policy, on records ---

  predicate TrusteeAllowed(trustee: string, owners: seq<string>) {
    || trustee == "SY"
    || trustee == "BA"
    || trustee in owners
    || exists o :: o in owners && SddlAliasFor(o) == Some(trustee)
  }

  /** Six fields at least, the second of them without "ID" anywhere in it, and the sixth the
      trustee. */
  ghost predicate AceAllowed(ace: Ace, owners: seq<string>) {
    && |ace| >= 6
    && (forall before, after :: ace[1] != before + "ID" + after)
    && TrusteeAllowed(ace[5], owners)
  }

  lemma CleanAceIsAllowed(ace: Ace, n: nat, owners: seq<string>)
    ensures AceDefect(ace, n, owners) == None <==> AceAllowed(ace, owners)
  {
    if |ace| >= ACE_FIELDS { ContainsExactlyWhen(ace[FLAGS], "ID"); }
  }

  /** Protected, not empty, nothing inherited, and nobody but the owners and the floor. */
  ghost predicate OwnerOnly(flags: string, aces: seq<Ace>, owners: seq<string>) {
    && 'P' in flags
    && aces != []
    && forall ace :: ace in aces ==> AceAllowed(ace, owners)
  }

  /** What is wrong with the `n`th entry, if anything. */
  function AceDefect(ace: Ace, n: nat, owners: seq<string>): Option<Defect> {
    if |ace| < ACE_FIELDS then Some(TooFewFields(|ace|))
    else if Contains(ace[FLAGS], "ID") then Some(Inherited(n))
    else if !TrusteeAllowed(ace[TRUSTEE], owners) then Some(Stranger(n, ace[TRUSTEE]))
    else None
  }

  ghost function FirstAceDefect(aces: seq<Ace>, seen: nat, owners: seq<string>): Option<Defect> {
    if aces == [] then (if seen == 0 then Some(NoAces) else None)
    else
      match AceDefect(aces[0], seen + 1, owners)
      case Some(d) => Some(d)
      case None => FirstAceDefect(aces[1..], seen + 1, owners)
  }

  /** The first defect of a DACL given as records. */
  ghost function FirstDefect(flags: string, aces: seq<Ace>, owners: seq<string>): Option<Defect> {
    if 'P' !in flags then Some(NotProtected) else FirstAceDefect(aces, 0, owners)
  }

  // --- records and text ---

  ghost function PrintedAces(aces: seq<Ace>): string {
    if aces == [] then "" else "(" + Join(aces[0], ';') + ")" + PrintedAces(aces[1..])
  }

  ghost function Printed(flags: string, aces: seq<Ace>): string {
    "D:" + flags + PrintedAces(aces)
  }

  /** No field holds the characters that delimit fields and entries. */
  ghost predicate Printable(flags: string, aces: seq<Ace>) {
    && '(' !in flags
    && forall ace, field :: ace in aces && field in ace ==> '(' !in field && ';' !in field
  }

  // --- the reader ---

  /** One piece between opening brackets, read as an entry. */
  function PieceDefect(piece: string, n: nat, owners: seq<string>): Option<Defect> {
    if !EndsWith(piece, ")") then Some(Unclosed)
    else AceDefect(Split(piece[..|piece| - 1], Is(';')), n, owners)
  }

  ghost function FirstPieceDefect(pieces: seq<string>, seen: nat, owners: seq<string>): Option<Defect> {
    if pieces == [] then (if seen == 0 then Some(NoAces) else None)
    else
      match PieceDefect(pieces[0], seen + 1, owners)
      case Some(d) => Some(d)
      case None => FirstPieceDefect(pieces[1..], seen + 1, owners)
  }

  ghost function ReadDefect(dacl: string, owners: seq<string>): Option<Defect> {
    if !StartsWith(dacl, "D:") then Some(NoDacl)
    else
      var rest := dacl[2..];
      var split := Find(rest, '(');
      if 'P' !in rest[..split] then Some(NotProtected)
      else FirstPieceDefect(Split(rest[split..], Is('('))[1..], 0, owners)
  }

  /** `owner_only_dacl_defect`. */
  method OwnerOnlyDaclDefect(dacl: string, owners: seq<string>) returns (defect: Option<Defect>)
    ensures defect == ReadDefect(dacl, owners)
    ensures defect == None <==> exists flags, aces ::
              Printable(flags, aces) && dacl == Printed(flags, aces) && OwnerOnly(flags, aces, owners)
  {
    ReaderDecidesThePolicy(dacl, owners);
    if !StartsWith(dacl, "D:") {
      return Some(NoDacl);
    }
    var rest := dacl[2..];
    var split := Find(rest, '(');
    var flags, body := rest[..split], rest[split..];
    if 'P' !in flags {
      return Some(NotProtected);
    }
    defect := ScanAces(Split(body, Is('('))[1..], owners);
  }

  method ScanAces(pieces: seq<string>, owners: seq<string>) returns (defect: Option<Defect>)
    ensures defect == FirstPieceDefect(pieces, 0, owners)
  {
    var seen := 0;
    while seen < |pieces|
      invariant 0 <= seen <= |pieces|
      invariant FirstPieceDefect(pieces, 0, owners) == FirstPieceDefect(pieces[seen..], seen, owners)
    {
      var piece := pieces[seen];
      if !EndsWith(piece, ")") {
        return Some(Unclosed);
      }
      var ace := piece[..|piece| - 1];
      seen := seen + 1;
      var fields := Split(ace, Is(';'));
      if |fields| < ACE_FIELDS {
        return Some(TooFewFields(|fields|));
      }
      if Contains(fields[FLAGS], "ID") {
        return Some(Inherited(seen));
      }
      var trustee := fields[TRUSTEE];
      if !TrusteeAllowed(trustee, owners) {
        return Some(Stranger(seen, trustee));
      }
    }
    if seen == 0 {
      return Some(NoAces);
    }
    return None;
  }

  // --- what the reader decides ---

  ghost function Piece(ace: Ace): string {
    Join(ace, ';') + ")"
  }

  ghost function Pieces(aces: seq<Ace>): seq<string> {
    if aces == [] then [] else [Piece(aces[0])] + Pieces(aces[1..])
  }

  lemma {:induction false} JoinHasNo(pieces: seq<string>, c: char, d: char)
    requires |pieces| >= 1 && c != d && forall piece :: piece in pieces ==> d !in piece
    ensures d !in Join(pieces, c)
  {
    if |pieces| > 1 {
      JoinHasNo(pieces[1..], c, d);
    }
  }

  /** Splitting what goes on after a piece, if it does, at an opening bracket. */
  lemma SplitFirstPiece(piece: string, rest: string)
    requires '(' !in piece && (rest != "" ==> rest[0] == '(')
    ensures Split(piece + rest, Is('(')) == [piece] + Split(rest, Is('('))[1..]
  {
    SplitWithoutSeparator(piece, Is('('));
    if rest == "" {
      assert piece + rest == piece;
    } else {
      assert piece + rest == piece + ['('] + rest[1..] && rest == "" + ['('] + rest[1..];
      SplitAtSeparator(piece, '(', rest[1..], Is('('));
      SplitAtSeparator("", '(', rest[1..], Is('('));
    }
  }

  /** The printed entries split at opening brackets into their pieces. */
  lemma {:induction false} PrintedAcesSplit(aces: seq<Ace>)
    requires Printable("", aces)
    ensures Split(PrintedAces(aces), Is('(')) == [""] + Pieces(aces)
    ensures aces != [] ==> PrintedAces(aces) != "" && PrintedAces(aces)[0] == '('
  {
    if aces != [] {
      var piece, rest := Piece(aces[0]), PrintedAces(aces[1..]);
      PrintedAcesSplit(aces[1..]);
      JoinHasNo(aces[0], ';', '(');
      SplitFirstPiece(piece, rest);
      assert PrintedAces(aces) == "" + ['('] + (piece + rest);
      SplitAtSeparator("", '(', piece + rest, Is('('));
    }
  }

  lemma {:induction false} PiecesReadAsTheirAces(aces: seq<Ace>, seen: nat, owners: seq<string>)
    requires Printable("", aces)
    ensures FirstPieceDefect(Pieces(aces), seen, owners) == FirstAceDefect(aces, seen, owners)
  {
    if aces != [] {
      var ace := aces[0];
      assert Piece(ace)[..|Piece(ace)| - 1] == Join(ace, ';');
      SplitOfJoin(ace, ';');
      PiecesReadAsTheirAces(aces[1..], seen + 1, owners);
    }
  }

  /** What the reader does with the two halves of its text. */
  lemma ReaderOnHalves(flags: string, body: string, owners: seq<string>)
    requires '(' !in flags && (body != "" ==> body[0] == '(')
    ensures ReadDefect("D:" + flags + body, owners)
         == if 'P' in flags then FirstPieceDefect(Split(body, Is('('))[1..], 0, owners) else Some(NotProtected)
  {
    var dacl, rest := "D:" + flags + body, flags + body;
    assert dacl[2..] == rest && dacl[..2] == "D:";
    assert rest[..|flags|] == flags && rest[|flags|..] == body;
    FindIs(rest, '(', |flags|);
  }

  /** On every printed list of records the reader reports the first defect of the records. */
  lemma ReaderOnPrinted(flags: string, aces: seq<Ace>, owners: seq<string>)
    requires Printable(flags, aces)
    ensures ReadDefect(Printed(flags, aces), owners) == FirstDefect(flags, aces, owners)
  {
    PrintedAcesSplit(aces);
    ReaderOnHalves(flags, PrintedAces(aces), owners);
    PiecesReadAsTheirAces(aces, 0, owners);
    assert Split(PrintedAces(aces), Is('('))[1..] == Pieces(aces);
  }

  // --- which defect is reported ---

  /** What the first entry that is not allowed is reported for: how many fields it has, or its
      position and that it is inherited, or its position and whom it names. */
  ghost predicate Blames(d: Defect, aces: seq<Ace>, k: nat)
    requires k < |aces|
  {
    if |aces[k]| < 6 then d == TooFewFields(|aces[k]|)
    else if exists before, after :: aces[k][1] == before + "ID" + after then d == Inherited(k + 1)
    else d == Stranger(k + 1, aces[k][5])
  }

  /** After entries that are allowed the next one decides, or the end of them. */
  lemma {:induction false} AllowedAcesArePassed(aces: seq<Ace>, seen: nat, k: nat, owners: seq<string>)
    requires k <= |aces| && forall j :: 0 <= j < k ==> AceAllowed(aces[j], owners)
    ensures FirstAceDefect(aces, seen, owners) == FirstAceDefect(aces[k..], seen + k, owners)
  {
    if k > 0 {
      CleanAceIsAllowed(aces[0], seen + 1, owners);
      AllowedAcesArePassed(aces[1..], seen + 1, k - 1, owners);
      assert aces[1..][k - 1..] == aces[k..];
    } else {
      assert aces[0..] == aces;
    }
  }

  /** Of a printed list of records: nothing else is reported than a missing protection, the
      first entry that is not allowed, or that there are no entries. */
  lemma ReaderBlamesTheFirst(flags: string, aces: seq<Ace>, owners: seq<string>, k: nat)
    requires Printable(flags, aces)
    requires k < |aces| && !AceAllowed(aces[k], owners) && forall j :: 0 <= j < k ==> AceAllowed(aces[j], owners)
    ensures var defect := ReadDefect(Printed(flags, aces), owners);
            defect.Some? && if 'P' in flags then Blames(defect.value, aces, k) else defect == Some(NotProtected)
    ensures ReadDefect(Printed(flags, []), owners) == Some(if 'P' in flags then NoAces else NotProtected)
  {
    ReaderOnPrinted(flags, aces, owners);
    ReaderOnPrinted(flags, [], owners);
    AllowedAcesArePassed(aces, 0, k, owners);
    CleanAceIsAllowed(aces[k], k + 1, owners);
    if |aces[k]| >= 6 { ContainsExactlyWhen(aces[k][1], "ID"); }
  }

  /** An entry that is not closed, after entries that are allowed. */
  lemma UnclosedIsReported(flags: string, aces: seq<Ace>, tail: string, owners: seq<string>)
    requires Printable(flags, aces) && 'P' in flags && forall ace :: ace in aces ==> AceAllowed(ace, owners)
    requires '(' !in tail && (tail == "" || tail[|tail| - 1] != ')')
    ensures ReadDefect(Printed(flags, aces) + "(" + tail, owners) == Some(Unclosed)
  {
    var body := PrintedAces(aces) + ['('] + tail;
    assert Printed(flags, aces) + "(" + tail == "D:" + flags + body;
    PrintedAcesSplit(aces);
    ReaderOnHalves(flags, body, owners);
    SplitUnclosed(aces, tail);
    UnclosedLast(aces, tail, 0, owners);
  }

  lemma SplitUnclosed(aces: seq<Ace>, tail: string)
    requires Printable("", aces) && '(' !in tail
    ensures Split(PrintedAces(aces) + ['('] + tail, Is('('))[1..] == Pieces(aces) + [tail]
  {
    PrintedAcesSplit(aces);
    SplitAtSeparator(PrintedAces(aces), '(', tail, Is('('));
    SplitWithoutSeparator(tail, Is('('));
  }

  lemma {:induction false} UnclosedLast(aces: seq<Ace>, tail: string, seen: nat, owners: seq<string>)
    requires Printable("", aces) && forall ace :: ace in aces ==> AceAllowed(ace, owners)
    requires tail == "" || tail[|tail| - 1] != ')'
    ensures FirstPieceDefect(Pieces(aces) + [tail], seen, owners) == Some(Unclosed)
  {
    var pieces := Pieces(aces) + [tail];
    if aces == [] {
      assert pieces == [tail];
    } else {
      var ace := aces[0];
      assert pieces[0] == Piece(ace) && pieces[1..] == Pieces(aces[1..]) + [tail];
      assert Piece(ace)[..|Piece(ace)| - 1] == Join(ace, ';');
      SplitOfJoin(ace, ';');
      CleanAceIsAllowed(ace, seen + 1, owners);
      UnclosedLast(aces[1..], tail, seen + 1, owners);
    }
  }

  lemma {:induction false} PiecesAreADacl(pieces: seq<string>, seen: nat, owners: seq<string>)
    ensures FirstPieceDefect(pieces, seen, owners) != Some(NoDacl)
  {
    if pieces != [] { PiecesAreADacl(pieces[1..], seen + 1, owners); }
  }

  /** Text that is no DACL at all. */
  lemma NoDaclExactlyWhen(dacl: string, owners: seq<string>)
    ensures ReadDefect(dacl, owners) == Some(NoDacl) <==> !("D:" <= dacl)
  {
    if "D:" <= dacl {
      var rest := dacl[2..];
      PiecesAreADacl(Split(rest[Find(rest, '(')..], Is('('))[1..], 0, owners);
    }
  }

  lemma {:induction false} CleanRecords(aces: seq<Ace>, seen: nat, owners: seq<string>)
    ensures FirstAceDefect(aces, seen, owners) == None <==>
            && (seen > 0 || aces != [])
            && forall ace :: ace in aces ==> AceAllowed(ace, owners)
  {
    if aces != [] {
      CleanRecords(aces[1..], seen + 1, owners);
      CleanAceIsAllowed(aces[0], seen + 1, owners);
      assert forall ace :: ace in aces <==> ace == aces[0] || ace in aces[1..];
    }
  }

  /** The records have no defect exactly when they are the policy. */
  lemma NoDefectIsThePolicy(flags: string, aces: seq<Ace>, owners: seq<string>)
    ensures FirstDefect(flags, aces, owners) == None <==> OwnerOnly(flags, aces, owners)
  {
    CleanRecords(aces, 0, owners);
  }

  /** Pieces that are all closed are the pieces of some records. */
  lemma {:induction false} ClosedPiecesAreRecords(pieces: seq<string>, seen: nat, owners: seq<string>)
    returns (aces: seq<Ace>)
    requires FirstPieceDefect(pieces, seen, owners) == None
    requires forall piece :: piece in pieces ==> '(' !in piece
    ensures Pieces(aces) == pieces && Printable("", aces)
  {
    if pieces == [] {
      aces := [];
    } else {
      var inner := pieces[0][..|pieces[0]| - 1];
      var ace := Split(inner, Is(';'));
      JoinOfSplit(inner, ';');
      assert Piece(ace) == pieces[0];
      assert '(' !in inner by { assert '(' !in pieces[0]; }
      forall field | field in ace ensures '(' !in field && ';' !in field {
        if ';' in field { PiecesHaveNoSeparator(inner, Is(';'), field, ';'); }
        FieldCharacters(inner, field, '(');
      }
      var rest := ClosedPiecesAreRecords(pieces[1..], seen + 1, owners);
      aces := [ace] + rest;
    }
  }

  lemma {:induction false} FieldCharacters(s: string, field: string, c: char)
    requires field in Split(s, Is(';')) && c !in s
    ensures c !in field
  {
    if s != "" {
      var rest := Split(s[1..], Is(';'));
      if field in rest {
        FieldCharacters(s[1..], field, c);
      } else if s[0] != ';' {
        FieldCharacters(s[1..], rest[0], c);
      }
    }
  }

  lemma {:induction false} PrintedAcesJoin(aces: seq<Ace>)
    ensures PrintedAces(aces) == Join([""] + Pieces(aces), '(')
  {
    if aces != [] {
      PrintedAcesJoin(aces[1..]);
      var pieces, rest := Pieces(aces), Pieces(aces[1..]);
      assert ([""] + pieces)[1..] == pieces && pieces[1..] == rest;
      if rest != [] {
        assert ([""] + rest)[1..] == rest;
        assert Join([""] + rest, '(') == "" + ['('] + Join(rest, '(');
      }
    }
  }

  /** A string read without a defect is the printed form of some records. */
  lemma CleanTextIsPrinted(dacl: string, owners: seq<string>) returns (flags: string, aces: seq<Ace>)
    requires ReadDefect(dacl, owners) == None
    ensures Printable(flags, aces) && dacl == Printed(flags, aces)
  {
    var rest := dacl[2..];
    var split := Find(rest, '(');
    flags := rest[..split];
    var body := rest[split..];
    assert dacl == "D:" + flags + body;
    aces := CleanBodyIsPrinted(body, owners);
  }

  lemma CleanBodyIsPrinted(body: string, owners: seq<string>) returns (aces: seq<Ace>)
    requires body != "" ==> body[0] == '('
    requires FirstPieceDefect(Split(body, Is('('))[1..], 0, owners) == None
    ensures Printable("", aces) && body == PrintedAces(aces)
  {
    var pieces := Split(body, Is('('));
    assert pieces[0] == "";
    forall piece | piece in pieces[1..] ensures '(' !in piece {
      if '(' in piece { PiecesHaveNoSeparator(body, Is('('), piece, '('); }
    }
    aces := ClosedPiecesAreRecords(pieces[1..], 0, owners);
    assert pieces == [""] + Pieces(aces);
    JoinOfSplit(body, '(');
    PrintedAcesJoin(aces);
  }

  /** For every string whatever: the reader finds no defect exactly when the string is the
      printed form of records that meet the policy. */
  lemma ReaderDecidesThePolicy(dacl: string, owners: seq<string>)
    ensures ReadDefect(dacl, owners) == None <==> exists flags, aces ::
              Printable(flags, aces) && dacl == Printed(flags, aces) && OwnerOnly(flags, aces, owners)
  {
    if flags, aces :| Printable(flags, aces) && dacl == Printed(flags, aces) && OwnerOnly(flags, aces, owners) {
      ReaderOnPrinted(flags, aces, owners);
      NoDefectIsThePolicy(flags, aces, owners);
    }
    if ReadDefect(dacl, owners) == None {
      var flags, aces := CleanTextIsPrinted(dacl, owners);
      ReaderOnPrinted(flags, aces, owners);
      NoDefectIsThePolicy(flags, aces, owners);
    }
  }

  // --- what the writer writes ---

  ghost function WrittenAces(sid: string, inheritance: Inheritance): seq<Ace> {
    var flags := if inheritance.No? then "" else "OICI";
    [["A", flags, "FA", "", "", "SY"], ["A", flags, "FA", "", "", "BA"], ["A", flags, "FA", "", "", sid]]
  }

  lemma JoinStep(first: string, rest: seq<string>)
    requires |rest| >= 1
    ensures Join([first] + rest, ';') == first + ";" + Join(rest, ';')
  {
    assert ([first] + rest)[1..] == rest;
  }

  lemma PrintedAllow(flags: string, sid: string)
    ensures "(" + Join(["A", flags, "FA", "", "", sid], ';') + ")" == Allow(flags, sid)
  {
    JoinStep("", [sid]);
    assert [""] + [sid] == ["", sid];
    JoinStep("", ["", sid]);
    assert [""] + ["", sid] == ["", "", sid];
    JoinStep("FA", ["", "", sid]);
    assert ["FA"] + ["", "", sid] == ["FA", "", "", sid];
    JoinStep(flags, ["FA", "", "", sid]);
    assert [flags] + ["FA", "", "", sid] == [flags, "FA", "", "", sid];
    JoinStep("A", [flags, "FA", "", "", sid]);
    assert ["A"] + [flags, "FA", "", "", sid] == ["A", flags, "FA", "", "", sid];
    assert Join(["A", flags, "FA", "", "", sid], ';')
        == "A" + ";" + (flags + ";" + ("FA" + ";" + ("" + ";" + ("" + ";" + sid))));
  }

  lemma PrintedThree(x: Ace, y: Ace, z: Ace)
    ensures PrintedAces([x, y, z])
         == "(" + Join(x, ';') + ")" + ("(" + Join(y, ';') + ")" + ("(" + Join(z, ';') + ")"))
  {
    assert [x, y, z][1..] == [y, z] && [y, z][1..] == [z] && [z][1..] == [];
    assert PrintedAces([z]) == "(" + Join(z, ';') + ")";
    assert PrintedAces([y, z]) == "(" + Join(y, ';') + ")" + PrintedAces([z]);
  }

  lemma WriterFlagsAreNotInherited()
    ensures !Contains("", "ID") && !Contains("OICI", "ID")
  {
    assert "OICI"[1..] == "ICI" && "ICI"[1..] == "CI" && "CI"[1..] == "I" && "I"[1..] == "";
    assert !StartsWith("OICI", "ID") by { assert "OICI"[0] != "ID"[0]; }
    assert !StartsWith("ICI", "ID") by { assert "ICI"[1] != "ID"[1]; }
    assert !Contains("I", "ID");
    assert !Contains("CI", "ID");
    assert !Contains("ICI", "ID");
  }

  lemma WriterPrintsItsRecords(sid: string, inheritance: Inheritance)
    ensures OwnerOnlySddl(sid, inheritance) == Printed("P", WrittenAces(sid, inheritance))
  {
    var flags := if inheritance.No? then "" else "OICI";
    var aces := WrittenAces(sid, inheritance);
    PrintedAllow(flags, "SY");
    PrintedAllow(flags, "BA");
    PrintedAllow(flags, sid);
    PrintedThree(aces[0], aces[1], aces[2]);
  }

  /** Everything the writer writes reads back clean, for every delimiter-free SID and any
      owner list that names it. */
  lemma WrittenReadsBackClean(sid: string, inheritance: Inheritance, owners: seq<string>)
    requires '(' !in sid && ';' !in sid && sid in owners
    ensures ReadDefect(OwnerOnlySddl(sid, inheritance), owners) == None
  {
    var aces := WrittenAces(sid, inheritance);
    WriterPrintsItsRecords(sid, inheritance);
    assert Printable("P", aces);
    WriterFlagsAreNotInherited();
    ReaderOnPrinted("P", aces, owners);
    NoDefectIsThePolicy("P", aces, owners);
  }

  /** An owner whose alias this is: the local Administrator, or the local Guest. */
  ghost predicate AliasOf(trustee: string, owners: seq<string>) {
    exists o :: o in owners && StartsWith(o, "S-1-5-21-")
                && ((trustee == "LA" && EndsWith(o, "-500")) || (trustee == "LG" && EndsWith(o, "-501")))
  }

  lemma AllowedTrustees(trustee: string, owners: seq<string>)
    ensures TrusteeAllowed(trustee, owners) <==>
              trustee in {"SY", "BA"} || trustee in owners || AliasOf(trustee, owners)
  {
    forall o ensures SddlAliasFor(o) == Some(trustee) <==>
                       StartsWith(o, "S-1-5-21-")
                       && ((trustee == "LA" && EndsWith(o, "-500")) || (trustee == "LG" && EndsWith(o, "-501"))) {
      AliasStandsForItsAccount(o);
    }
  }

  /** So does the rendering that names an owner by its alias, and a trustee that is nobody
      allowed is reported by position and name. */
  lemma RenderedTrustee(owners: seq<string>, trustee: string, inheritance: Inheritance)
    requires '(' !in trustee && ';' !in trustee
    ensures ReadDefect(OwnerOnlySddl(trustee, inheritance), owners)
         == if trustee in {"SY", "BA"} || trustee in owners || AliasOf(trustee, owners) then None
            else Some(Stranger(3, trustee))
  {
    var aces := WrittenAces(trustee, inheritance);
    WriterPrintsItsRecords(trustee, inheritance);
    assert Printable("P", aces);
    WriterFlagsAreNotInherited();
    ReaderOnPrinted("P", aces, owners);
    FloorIsAllowed(aces[0], owners);
    FloorIsAllowed(aces[1], owners);
    ThirdAceDecides(aces[0], aces[1], aces[2], owners);
    assert aces == [aces[0], aces[1], aces[2]];
    AllowedTrustees(trustee, owners);
  }

  lemma FloorIsAllowed(ace: Ace, owners: seq<string>)
    requires |ace| == 6 && ace[1] in {"", "OICI"} && ace[5] in {"SY", "BA"}
    ensures AceAllowed(ace, owners)
  {
    WriterFlagsAreNotInherited();
    CleanAceIsAllowed(ace, 1, owners);
  }

  /** After two entries that are allowed the third one decides. */
  lemma ThirdAceDecides(x: Ace, y: Ace, z: Ace, owners: seq<string>)
    requires AceAllowed(x, owners) && AceAllowed(y, owners)
    ensures FirstAceDefect([x, y, z], 0, owners) == AceDefect(z, 3, owners)
  {
    AllowedAceIsPassed(x, [y, z], 0, owners);
    AllowedAceIsPassed(y, [z], 1, owners);
    assert [x, y, z] == [x] + [y, z] && [y, z] == [y] + [z];
    assert [z][1..] == [];
  }

  lemma AllowedAceIsPassed(ace: Ace, rest: seq<Ace>, seen: nat, owners: seq<string>)
    requires AceAllowed(ace, owners)
    ensures FirstAceDefect([ace] + rest, seen, owners) == FirstAceDefect(rest, seen + 1, owners)
  {
    CleanAceIsAllowed(ace, seen + 1, owners);
    assert ([ace] + rest)[1..] == rest;
  }
}
