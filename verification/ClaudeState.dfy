/** Claude Code's state file, `~/.claude.json`, of src/claude_state.rs: the display half of
    an account's credential.

    A file is what reading it yields. Parsed documents are JSON values, so the bytes a
    value is stored as, and their order, are not part of this model. */
module ClaudeState {
  import opened Wrappers

  datatype Json =
    | Null
    | Bool(b: bool)
    | Num(n: int)
    | Str(s: string)
    | Arr(items: seq<Json>)
    | Obj(fields: map<string, Json>)

  datatype Content = Absent | Unreadable | Malformed | Doc(root: Json)

  datatype StateError =
    | StateNotFound
    | Io
    | Parse
    | OauthAccountMissing
    | FieldMissing(field: string)

  const OAUTH_ACCOUNT := "oauthAccount"
  const ACCOUNT_UUID := "accountUuid"

  /** An identity block with the uuid extracted from it. */
  datatype OauthAccount = OauthAccount(raw: Json, accountUuid: string)

  /** Unicode White_Space, which `trim` strips. */
  predicate IsWhitespace(c: char) {
    || '\U{9}' <= c <= '\U{D}'
    || c in {' ', '\U{85}', '\U{A0}', '\U{1680}', '\U{2028}', '\U{2029}', '\U{202F}', '\U{205F}', '\U{3000}'}
    || '\U{2000}' <= c <= '\U{200A}'
  }

  predicate Blank(s: string) {
    forall c :: c in s ==> IsWhitespace(c)
  }

  /** The characters of that property, one by one (Unicode Standard, PropList.txt). */
  lemma WhitespaceIsTheUnicodeList(c: char)
    ensures IsWhitespace(c) <==>
              c as int in {9, 10, 11, 12, 13, 32, 133, 160, 5760,
                           8192, 8193, 8194, 8195, 8196, 8197, 8198, 8199, 8200, 8201, 8202,
                           8232, 8233, 8239, 8287, 12288}
  {
  }

  /** `value.get(key)`: only an object has fields. */
  function Get(value: Json, key: string): Option<Json> {
    if value.Obj? && key in value.fields then Some(value.fields[key]) else None
  }

  /** `string_field`. */
  function StringField(value: Json, field: string): Result<string, StateError> {
    match Get(value, field)
    case Some(Str(s)) => Ok(s)
    case _ => Err(FieldMissing(field))
  }

  /** `OauthAccount::from_object`. */
  function FromObject(value: Json): Result<OauthAccount, StateError> {
    if !value.Obj? then Err(OauthAccountMissing)
    else
      match StringField(value, ACCOUNT_UUID)
      case Err(e) => Err(e)
      case Ok(uuid) => if Blank(uuid) then Err(FieldMissing(ACCOUNT_UUID)) else Ok(OauthAccount(value, uuid))
  }

  /** `read_oauth_account_from`. */
  function Read(content: Content): Result<OauthAccount, StateError> {
    match content
    case Absent => Err(StateNotFound)
    case Unreadable => Err(Io)
    case Malformed => Err(Parse)
    case Doc(root) =>
      match Get(root, OAUTH_ACCOUNT)
      case None => Err(OauthAccountMissing)
      case Some(value) => FromObject(value)
  }

  /** The uuid on display, where every reading failure counts as none. */
  function Displayed(content: Content): Option<string> {
    match Read(content)
    case Ok(account) => Some(account.accountUuid)
    case Err(_) => None
  }

  /** An identity the program can hold: it was extracted from its own object. */
  predicate Extracted(account: OauthAccount) {
    FromObject(account.raw) == Ok(account)
  }

  function SampleIdentity(): (account: OauthAccount)
    ensures Extracted(account)
  {
    assert !IsWhitespace("u"[0]);
    OauthAccount(Obj(map[ACCOUNT_UUID := Str("u")]), "u")
  }

  type Identity = account: OauthAccount | Extracted(account) witness SampleIdentity()

  /** Whether a write of this file reaches its final step and that step succeeds. */
  predicate Writable(content: Content, landed: bool) {
    content.Doc? && content.root.Obj? && landed
  }

  /** What the write leaves behind, as a value. */
  function Written(content: Content, oauth: Identity, landed: bool): Content {
    if Writable(content, landed) then Doc(Obj(content.root.fields[OAUTH_ACCOUNT := oauth.raw])) else content
  }

  class StateFile {
    var content: Content

    constructor (content: Content)
      ensures this.content == content
    {
      this.content := content;
    }

    /** `write_oauth_account`. `landed` says whether the final atomic replacement succeeds;
        it stages a temporary and renames it, so a failure leaves the file as it was. */
    method WriteOauthAccount(oauth: Identity, landed: bool) returns (r: Result<(), StateError>)
      modifies this
      ensures r.Ok? <==> Writable(old(content), landed)
      ensures content == Written(old(content), oauth, landed)
      ensures r.Err? ==> content == old(content)
      ensures r.Err? ==> r.error == match old(content)
                                    case Absent => StateNotFound
                                    case Unreadable => Io
                                    case Malformed => Parse
                                    case Doc(root) => if root.Obj? then Io else OauthAccountMissing
    {
      match content {
        case Absent => return Err(StateNotFound);
        case Unreadable => return Err(Io);
        case Malformed => return Err(Parse);
        case Doc(root) =>
          if !root.Obj? {
            return Err(OauthAccountMissing);
          }
          var updated := root.fields[OAUTH_ACCOUNT := oauth.raw];
          if !landed {
            return Err(Io);
          }
          content := Doc(Obj(updated));
          return Ok(());
      }
    }
  }

  /** After a write that lands, reading gives back the very identity written, every other
      top-level key is as it was, and writing the same identity again changes nothing. */
  lemma ReadAfterWrite(content: Content, oauth: Identity)
    requires Writable(content, true)
    ensures var after := Written(content, oauth, true);
            && Read(after) == Ok(oauth)
            && Displayed(after) == Some(oauth.accountUuid)
            && (forall key :: key != OAUTH_ACCOUNT ==> Get(after.root, key) == Get(content.root, key))
            && Written(after, oauth, true) == after
  {
    var fields := content.root.fields;
    assert fields[OAUTH_ACCOUNT := oauth.raw][OAUTH_ACCOUNT := oauth.raw] == fields[OAUTH_ACCOUNT := oauth.raw];
  }

  /** The last of two writes is the one that shows. */
  lemma LastWriterWins(content: Content, first: Identity, second: Identity)
    requires Writable(content, true)
    ensures Written(Written(content, first, true), second, true) == Written(content, second, true)
  {
    var fields := content.root.fields;
    assert fields[OAUTH_ACCOUNT := first.raw][OAUTH_ACCOUNT := second.raw] == fields[OAUTH_ACCOUNT := second.raw];
  }

  /** Reading succeeds exactly on an object whose `oauthAccount` is an object whose
      `accountUuid` is a string that is not blank, and yields that object and that string. */
  lemma ReadSucceedsExactlyWhen(content: Content, raw: Json, uuid: string)
    ensures Read(content) == Ok(OauthAccount(raw, uuid)) <==>
              && content.Doc? && content.root.Obj?
              && "oauthAccount" in content.root.fields && content.root.fields["oauthAccount"] == raw
              && raw.Obj? && "accountUuid" in raw.fields && raw.fields["accountUuid"] == Str(uuid) && !Blank(uuid)
    ensures Read(content) == Ok(OauthAccount(raw, uuid)) ==> Extracted(OauthAccount(raw, uuid))
  {
  }

  /** Otherwise the error tells a file that could not be parsed, one without an identity
      block, and an identity block without its uuid apart. */
  lemma ReadFailsWith(content: Content, e: StateError)
    requires Read(content) == Err(e)
    ensures e == StateNotFound <==> content.Absent?
    ensures e == Io <==> content.Unreadable?
    ensures e == Parse <==> content.Malformed?
    ensures e == OauthAccountMissing <==>
              && content.Doc?
              && (content.root.Obj? && "oauthAccount" in content.root.fields ==>
                    !content.root.fields["oauthAccount"].Obj?)
    ensures e.FieldMissing? ==> e.field == "accountUuid"
  {
  }
}
