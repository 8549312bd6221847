/**
 * The Fable document schema of api/models/fableModel.js: the shape of a
 * Fable and its embedded records, the two enums, the required paths and
 * the defaults a new document receives.
 */
module FableSchema {
  import opened Wrappers

  /** A store-generated identifier (`_id`), kept abstract. */
  type ObjectId = nat

  /** A `Date` value. Reading the clock is left to the caller. */
  type Timestamp = int

  /** The `locales` enum. */
  const Locales: seq<string> := ["en_us"]

  /** The `messageTypes` enum. */
  const MessageTypes: seq<string> := ["text", "image", "video", "narration"]

  /** The default of the `locale` path. */
  const DefaultLocale: seq<string> := ["en_us"]

  /** An entry of `likes` or `dislikes`: the schema keeps only `user`. */
  datatype Vote = Vote(user: string)

  /** An entry of `characters`. */
  datatype Character = Character(id: ObjectId, name: Option<string>)

  /** An entry of `messages`; `messageType` is an array of enum strings. */
  datatype Message = Message(
    id: ObjectId,
    messageType: seq<string>,
    body: Option<string>,
    character: Option<string>,
    date: Timestamp)

  function IdOfCharacter(c: Character): ObjectId { c.id }

  function IdOfMessage(m: Message): ObjectId { m.id }

  /**
   * A Fable document. The two counters are plain optional numbers: the
   * schema neither defaults them nor derives them from the lists.
   */
  datatype FableDoc = FableDoc(
    name: Option<string>,
    creator: Option<string>,
    characters: seq<Character>,
    likesCount: Option<int>,
    likes: seq<Vote>,
    dislikes: seq<Vote>,
    dislikesCount: Option<int>,
    messages: seq<Message>,
    createdDate: Option<Timestamp>,
    locale: Option<seq<string>>)

  /**
   * A path of a request body that has a default: left out of the body,
   * given as an explicit `null`, or given a value.
   */
  datatype Path<T> = Absent | Null | Given(value: T)

  /** The value a defaulted path takes: the default only when the path is left out; `null` stays `null`. */
  function Defaulted<T>(p: Path<T>, default: T): (r: Option<T>)
    ensures p.Absent? ==> r == Some(default)
    ensures p.Null? <==> r.None?
    ensures p.Given? ==> r == Some(p.value)
  {
    match p
    case Absent => Some(default)
    case Null => None
    case Given(v) => Some(v)
  }

  /**
   * A request body a Fable is built from. A path without a default may be
   * unset (`None`, left out or `null`, which the schema treats alike); the
   * array paths may be left out (`None`) or given; `created_date` and
   * `locale` may also be an explicit `null`.
   */
  datatype FableBody = FableBody(
    name: Option<string>,
    creator: Option<string>,
    characters: Option<seq<Character>>,
    likesCount: Option<int>,
    likes: Option<seq<Vote>>,
    dislikes: Option<seq<Vote>>,
    dislikesCount: Option<int>,
    messages: Option<seq<Message>>,
    createdDate: Path<Timestamp>,
    locale: Path<seq<string>>)

  /**
   * A new document from a body: a left-out array path defaults to the empty
   * array, a left-out `created_date` to the current time and a left-out
   * `locale` to `['en_us']`; an explicit `null` is kept.
   */
  function FromBody(b: FableBody, now: Timestamp): FableDoc {
    FableDoc(
      b.name,
      b.creator,
      b.characters.GetOr([]),
      b.likesCount,
      b.likes.GetOr([]),
      b.dislikes.GetOr([]),
      b.dislikesCount,
      b.messages.GetOr([]),
      Defaulted(b.createdDate, now),
      Defaulted(b.locale, DefaultLocale))
  }

  /** What a failed validation reports, one value per offending path. */
  datatype SchemaError =
    | NameRequired
    | CreatorRequired
    | LocaleRequired
    | LocaleNotInEnum(value: string)
    | MessageTypeNotInEnum(message: nat, value: string)

  /** The message a `required` path reports. */
  function RequiredMessage(e: SchemaError): Option<string> {
    match e
    case NameRequired => Some("Please enter the name of the Fable")
    case CreatorRequired => Some("Please enter the creator of the Fable")
    case LocaleRequired => Some("Please enter the locale of the Fable")
    case _ => None
  }

  /** A `required` String path fails on `undefined`, `null` and `''`. */
  predicate RequiredString(v: Option<string>) {
    v.Some? && v.value != ""
  }

  /** The `locale` rules: a non-empty array whose every element is in the enum. */
  predicate LocaleOk(ls: seq<string>) {
    |ls| > 0 && forall i :: 0 <= i < |ls| ==> ls[i] in Locales
  }

  /** The `messageType` rule: every element of every message's array is in the enum. */
  predicate MessageTypesOk(ms: seq<Message>) {
    forall i, j :: 0 <= i < |ms| && 0 <= j < |ms[i].messageType| ==> ms[i].messageType[j] in MessageTypes
  }

  /** The `locale` array validation looks at; a `null` locale has no elements. */
  function LocaleArray(d: FableDoc): seq<string> {
    d.locale.GetOr([])
  }

  /** Everything validation reports about a document. */
  function Errors(d: FableDoc): set<SchemaError> {
    var ls := LocaleArray(d);
    (if RequiredString(d.name) then {} else {NameRequired})
    + (if RequiredString(d.creator) then {} else {CreatorRequired})
    + (if |ls| > 0 then {} else {LocaleRequired})
    + (set i | 0 <= i < |ls| && ls[i] !in Locales :: LocaleNotInEnum(ls[i]))
    + (set i, j | 0 <= i < |d.messages| && 0 <= j < |d.messages[i].messageType|
                  && d.messages[i].messageType[j] !in MessageTypes
                :: MessageTypeNotInEnum(i, d.messages[i].messageType[j]))
  }

  /** A document the store accepts on save. */
  predicate Valid(d: FableDoc) {
    Errors(d) == {}
  }

  /** The `required` messages among a document's errors. */
  function RequiredMessages(d: FableDoc): set<string> {
    set e | e in Errors(d) && RequiredMessage(e).Some? :: RequiredMessage(e).value
  }

  /**
   * Validation fails exactly when one of the schema's rules is broken; a
   * `null` locale breaks the `required` rule.
   */
  lemma ValidIff(d: FableDoc)
    ensures Valid(d) <==>
      && RequiredString(d.name) && RequiredString(d.creator)
      && d.locale.Some? && LocaleOk(d.locale.value) && MessageTypesOk(d.messages)
  {
    var ls := LocaleArray(d);
    if !LocaleOk(ls) && |ls| > 0 {
      var i :| 0 <= i < |ls| && ls[i] !in Locales;
      assert LocaleNotInEnum(ls[i]) in Errors(d);
    }
    if !MessageTypesOk(d.messages) {
      var i, j :| 0 <= i < |d.messages| && 0 <= j < |d.messages[i].messageType|
                  && d.messages[i].messageType[j] !in MessageTypes;
      assert MessageTypeNotInEnum(i, d.messages[i].messageType[j]) in Errors(d);
    }
    if !RequiredString(d.name) {
      assert NameRequired in Errors(d);
    }
    if !RequiredString(d.creator) {
      assert CreatorRequired in Errors(d);
    }
    if |ls| == 0 {
      assert LocaleRequired in Errors(d);
    }
  }

  /**
   * A body that leaves `locale` out gets `['en_us']`, which meets the locale
   * rules; a given locale is kept as given; an explicit `null` is kept, and
   * validation then reports "Please enter the locale of the Fable".
   */
  lemma DefaultLocaleOk(b: FableBody, now: Timestamp)
    ensures b.locale.Absent? ==>
      FromBody(b, now).locale == Some(DefaultLocale) && LocaleOk(DefaultLocale)
    ensures b.locale.Given? ==> FromBody(b, now).locale == Some(b.locale.value)
    ensures b.locale.Null? ==>
      && FromBody(b, now).locale.None?
      && "Please enter the locale of the Fable" in RequiredMessages(FromBody(b, now))
  {
    if b.locale.Null? {
      var d := FromBody(b, now);
      assert LocaleRequired in Errors(d);
      assert RequiredMessage(LocaleRequired).value in RequiredMessages(d);
    }
  }

  /** Each `required` rule reports its own message exactly when its path is unset. */
  lemma RequiredMessagesReported(d: FableDoc)
    ensures !RequiredString(d.name) <==> "Please enter the name of the Fable" in RequiredMessages(d)
    ensures !RequiredString(d.creator) <==> "Please enter the creator of the Fable" in RequiredMessages(d)
    ensures |LocaleArray(d)| == 0 <==> "Please enter the locale of the Fable" in RequiredMessages(d)
    ensures RequiredMessages(d) <= {"Please enter the name of the Fable",
      "Please enter the creator of the Fable", "Please enter the locale of the Fable"}
  {
    if !RequiredString(d.name) {
      assert RequiredMessage(NameRequired).value in RequiredMessages(d);
    }
    if !RequiredString(d.creator) {
      assert RequiredMessage(CreatorRequired).value in RequiredMessages(d);
    }
    if |LocaleArray(d)| == 0 {
      assert RequiredMessage(LocaleRequired).value in RequiredMessages(d);
    }
  }

  /**
   * Appending one message to a valid document keeps it valid exactly when
   * the new message's types are all in the enum.
   */
  lemma AppendMessageValid(d: FableDoc, m: Message)
    requires Valid(d)
    ensures Valid(d.(messages := d.messages + [m])) <==>
      forall j :: 0 <= j < |m.messageType| ==> m.messageType[j] in MessageTypes
  {
    ValidIff(d);
    var d' := d.(messages := d.messages + [m]);
    ValidIff(d');
    var ms := d'.messages;
    if forall j :: 0 <= j < |m.messageType| ==> m.messageType[j] in MessageTypes {
      forall i, j | 0 <= i < |ms| && 0 <= j < |ms[i].messageType|
        ensures ms[i].messageType[j] in MessageTypes
      {
        if i < |d.messages| {
          assert ms[i] == d.messages[i];
        } else {
          assert ms[i] == m;
        }
      }
    } else {
      var j :| 0 <= j < |m.messageType| && m.messageType[j] !in MessageTypes;
      assert ms[|d.messages|] == m;
    }
  }
}
