/**
 * The handlers of api/controllers/fablesController.js that change a loaded
 * Fable in memory before it is saved: create, like, dislike, and the
 * create/update/delete handlers of the embedded messages and characters.
 * Loading and saving the document are not part of this model; each handler
 * is a method on the loaded document.
 */
module FablesController {
  import opened Wrappers
  import opened FableSchema
  import opened Outcomes
  import Votes
  import SubDocs
  import Strings

  /** The document `new Fable(req.body)` builds once `creator` is set to the caller. */
  function NewFable(body: FableBody, caller: string, now: Timestamp): FableDoc {
    FromBody(body, now).(creator := Some(caller))
  }

  /**
   * Whatever the body says about `creator`, the new Fable's creator is the
   * caller; the store accepts it exactly when the body has a name, the caller
   * is not empty, and the locales and message types meet the schema.
   */
  lemma NewFableValid(body: FableBody, caller: string, now: Timestamp)
    ensures NewFable(body, caller, now).creator == Some(caller)
    ensures Valid(NewFable(body, caller, now)) <==>
      && RequiredString(body.name)
      && caller != ""
      && (body.locale.Absent? || (body.locale.Given? && LocaleOk(body.locale.value)))
      && MessageTypesOk(body.messages.GetOr([]))
  {
    ValidIff(NewFable(body, caller, now));
  }

  /** The two vote lists of a document and their counters. */
  function VotesOf(d: FableDoc): Votes.Tally {
    Votes.Tally(d.likes, d.likesCount, d.dislikes, d.dislikesCount)
  }

  /**
   * A body that leaves the four vote paths out creates a Fable with no votes
   * and unset counters, which meets the vote invariant.
   */
  lemma NewFableVotesFresh(body: FableBody, caller: string, now: Timestamp)
    requires body.likes.None? && body.likesCount.None? && body.dislikes.None? && body.dislikesCount.None?
    ensures VotesOf(NewFable(body, caller, now)) == Votes.Tally([], None, [], None)
    ensures Votes.Invariant(VotesOf(NewFable(body, caller, now)))
  {
    Votes.EmptyInvariant();
  }

  /**
   * The create body's counters are kept as sent, so a body with a
   * `likesCount` and no likes creates a Fable that breaks the vote invariant.
   */
  lemma NewFableForgedCount(body: FableBody, caller: string, now: Timestamp, n: int)
    requires body.likes.None? && body.likesCount == Some(n) && n != 0
    ensures NewFable(body, caller, now).likesCount == Some(n)
    ensures !Votes.Invariant(VotesOf(NewFable(body, caller, now)))
  {
  }

  /** The array `messageType` gets from `req.body.type`: one element, or none when absent. */
  function TypeArray(msgType: Option<string>): seq<string> {
    if msgType.Some? then [msgType.value] else []
  }

  /** The body create_a_Fable_Message stores: a video URL is cut to its id, anything else is kept. */
  function StoredBody(msgType: Option<string>, content: Option<string>): Option<string> {
    if msgType == Some("video") && content.Some? then Strings.VideoId(content.value) else content
  }

  /**
   * A video message keeps the text between the first and the next `v=` of
   * its content, and none if there is no `v=`; every other message keeps
   * its content as given.
   */
  lemma StoredBodyIs(msgType: Option<string>, content: Option<string>)
    ensures msgType == Some("video") && content.Some? ==>
      StoredBody(msgType, content) == Strings.SecondSegment(content.value)
    ensures msgType != Some("video") || content.None? ==> StoredBody(msgType, content) == content
  {
    if msgType == Some("video") && content.Some? {
      Strings.VideoIdIsSecondSegment(content.value);
    }
  }

  /** The new message keeps the document valid exactly when its type is absent or in the enum. */
  lemma TypeArrayOk(msgType: Option<string>)
    ensures (forall j :: 0 <= j < |TypeArray(msgType)| ==> TypeArray(msgType)[j] in MessageTypes) <==>
      (msgType.None? || msgType.value in MessageTypes)
  {
    if msgType.Some? {
      assert TypeArray(msgType)[0] == msgType.value;
    }
  }

  /** A loaded Fable document; each handler changes its fields in place. */
  class Fable {
    var name: Option<string>
    var creator: Option<string>
    var characters: seq<Character>
    var likesCount: Option<int>
    var likes: seq<Vote>
    var dislikes: seq<Vote>
    var dislikesCount: Option<int>
    var messages: seq<Message>
    var createdDate: Option<Timestamp>
    var locale: Option<seq<string>>

    /** The loaded document as it stands in memory. */
    function Doc(): FableDoc
      reads this
    {
      FableDoc(name, creator, characters, likesCount, likes, dislikes, dislikesCount, messages, createdDate, locale)
    }

    /** The two vote lists and their counters. */
    function Tally(): Votes.Tally
      reads this
    {
      Votes.Tally(likes, likesCount, dislikes, dislikesCount)
    }

    /** Only the caller, the creator, may change messages and characters. */
    predicate IsCreator(caller: string)
      reads this
    {
      creator == Some(caller)
    }

    /** create_a_Fable: the document built from the body, with the caller as creator. */
    constructor FromRequest(body: FableBody, caller: string, now: Timestamp)
      ensures Doc() == NewFable(body, caller, now)
    {
      var d := FromBody(body, now);
      name := d.name;
      creator := Some(caller);
      characters := d.characters;
      likesCount := d.likesCount;
      likes := d.likes;
      dislikes := d.dislikes;
      dislikesCount := d.dislikesCount;
      messages := d.messages;
      createdDate := d.createdDate;
      locale := d.locale;
    }

    /** create_a_Fable_Like. Only the votes and their counters change. */
    method Like(caller: string) returns (outcome: Outcome)
      modifies this
      ensures Votes.Step(outcome, Tally()) == Votes.Like(old(Tally()), caller)
      ensures Doc() == old(Doc()).(likes := likes, likesCount := likesCount,
                                   dislikes := dislikes, dislikesCount := dislikesCount)
      ensures Votes.Invariant(old(Tally())) ==> Votes.Invariant(Tally())
    {
      if Votes.Invariant(Tally()) {
        Votes.LikeKeepsInvariant(Tally(), caller);
      }
      var hasLiked := Votes.HasVoted(likes, caller);
      var hasDisliked := Votes.HasVoted(dislikes, caller);
      if hasLiked {
        return AlreadyLiked;
      }
      if hasDisliked {
        dislikes := Votes.Without(dislikes, caller);
        dislikesCount := Some(|dislikes|);
      }
      if caller != "" {
        likes := likes + [Vote(caller)];
        likesCount := Some(|likes|);
        outcome := LikeCreated(likesCount, dislikesCount);
      } else {
        // The handler neither saves nor replies: the stored document keeps its old votes.
        outcome := NoCaller;
      }
    }

    /** create_a_Fable_Dislike. Only the votes and their counters change. */
    method Dislike(caller: string) returns (outcome: Outcome)
      modifies this
      ensures Votes.Step(outcome, Tally()) == Votes.Dislike(old(Tally()), caller)
      ensures Doc() == old(Doc()).(likes := likes, likesCount := likesCount,
                                   dislikes := dislikes, dislikesCount := dislikesCount)
      ensures Votes.Invariant(old(Tally())) ==> Votes.Invariant(Tally())
    {
      if Votes.Invariant(Tally()) {
        Votes.DislikeKeepsInvariant(Tally(), caller);
      }
      var hasDisliked := Votes.HasVoted(dislikes, caller);
      var hasLiked := Votes.HasVoted(likes, caller);
      if hasDisliked {
        return AlreadyDisliked;
      }
      if hasLiked {
        likes := Votes.Without(likes, caller);
        likesCount := Some(|likes|);
      }
      if caller != "" {
        dislikes := dislikes + [Vote(caller)];
        dislikesCount := Some(|dislikes|);
        outcome := DislikeCreated(likesCount, dislikesCount);
      } else {
        // The handler neither saves nor replies: the stored document keeps its old votes.
        outcome := NoCaller;
      }
    }

    /**
     * create_a_Fable_Message: creator only; appends one message with the
     * given id and time after the existing ones.
     */
    method CreateMessage(caller: string, msgType: Option<string>, content: Option<string>,
                         character: Option<string>, newId: ObjectId, now: Timestamp)
      returns (outcome: Outcome)
      modifies this
      ensures !old(IsCreator(caller)) ==> outcome == NotAuthorized && Doc() == old(Doc())
      ensures old(IsCreator(caller)) ==>
        && outcome == MessageCreated
        && Doc() == old(Doc()).(messages := old(messages) +
                                [Message(newId, TypeArray(msgType), StoredBody(msgType, content), character, now)])
      ensures old(IsCreator(caller)) && old(Valid(Doc())) ==>
        (Valid(Doc()) <==> msgType.None? || msgType.value in MessageTypes)
      ensures old(SubDocs.UniqueIds(messages, IdOfMessage))
              && old(SubDocs.Find(messages, IdOfMessage, newId)).None?
              ==> SubDocs.UniqueIds(messages, IdOfMessage)
    {
      if creator != Some(caller) {
        return NotAuthorized;
      }
      ghost var before := Doc();
      var m := Message(newId, TypeArray(msgType), StoredBody(msgType, content), character, now);
      if Valid(before) {
        AppendMessageValid(before, m);
        TypeArrayOk(msgType);
      }
      if SubDocs.UniqueIds(messages, IdOfMessage) && SubDocs.Find(messages, IdOfMessage, newId).None? {
        SubDocs.AppendFreshUnique(messages, IdOfMessage, m);
      }
      messages := messages + [m];
      outcome := MessageCreated;
    }

    /**
     * update_a_Fable_Message: creator only; the first message with the id
     * gets the new body and nothing else changes.
     */
    method UpdateMessage(caller: string, messageId: ObjectId, newBody: Option<string>)
      returns (outcome: Outcome)
      modifies this
      ensures !old(IsCreator(caller)) ==> outcome == NotAuthorized && Doc() == old(Doc())
      ensures old(IsCreator(caller)) && SubDocs.Find(old(messages), IdOfMessage, messageId).None? ==>
        outcome == CommentNotFound && Doc() == old(Doc())
      ensures old(IsCreator(caller)) && SubDocs.Find(old(messages), IdOfMessage, messageId).Some? ==>
        var i := SubDocs.Find(old(messages), IdOfMessage, messageId).value;
        && outcome == MessageUpdated
        && Doc() == old(Doc()).(messages := old(messages)[i := old(messages)[i].(body := newBody)])
      ensures old(SubDocs.UniqueIds(messages, IdOfMessage)) ==> SubDocs.UniqueIds(messages, IdOfMessage)
    {
      if creator != Some(caller) {
        return NotAuthorized;
      }
      var found := SubDocs.Find(messages, IdOfMessage, messageId);
      if found.None? {
        return CommentNotFound;
      }
      var i := found.value;
      if SubDocs.UniqueIds(messages, IdOfMessage) {
        SubDocs.SameKeyUnique(messages, IdOfMessage, i, messages[i].(body := newBody));
      }
      messages := messages[i := messages[i].(body := newBody)];
      outcome := MessageUpdated;
    }

    /**
     * delete_a_Fable_Message: no creator check; every message with the id
     * is pulled, which with unique ids is exactly the one found.
     */
    method DeleteMessage(messageId: ObjectId) returns (outcome: Outcome)
      modifies this
      ensures SubDocs.Find(old(messages), IdOfMessage, messageId).None? ==>
        outcome == CommentNotFound && Doc() == old(Doc())
      ensures SubDocs.Find(old(messages), IdOfMessage, messageId).Some? ==>
        && outcome == MessageDeleted
        && Doc() == old(Doc()).(messages := SubDocs.Pull(old(messages), IdOfMessage, messageId))
      ensures old(SubDocs.UniqueIds(messages, IdOfMessage))
              && SubDocs.Find(old(messages), IdOfMessage, messageId).Some? ==>
        var i := SubDocs.Find(old(messages), IdOfMessage, messageId).value;
        messages == old(messages[..i] + messages[i + 1..])
    {
      var found := SubDocs.Find(messages, IdOfMessage, messageId);
      if found.None? {
        return CommentNotFound;
      }
      if SubDocs.UniqueIds(messages, IdOfMessage) {
        SubDocs.PullUnique(messages, IdOfMessage, messageId, found.value);
      }
      messages := SubDocs.Pull(messages, IdOfMessage, messageId);
      outcome := MessageDeleted;
    }

    /** create_a_Fable_Character: creator only; appends one character after the existing ones. */
    method CreateCharacter(caller: string, charName: Option<string>, newId: ObjectId)
      returns (outcome: Outcome)
      modifies this
      ensures !old(IsCreator(caller)) ==> outcome == NotAuthorized && Doc() == old(Doc())
      ensures old(IsCreator(caller)) ==>
        && outcome == CharacterCreated
        && Doc() == old(Doc()).(characters := old(characters) + [Character(newId, charName)])
      ensures old(SubDocs.UniqueIds(characters, IdOfCharacter))
              && old(SubDocs.Find(characters, IdOfCharacter, newId)).None?
              ==> SubDocs.UniqueIds(characters, IdOfCharacter)
    {
      if creator != Some(caller) {
        return NotAuthorized;
      }
      var c := Character(newId, charName);
      if SubDocs.UniqueIds(characters, IdOfCharacter) && SubDocs.Find(characters, IdOfCharacter, newId).None? {
        SubDocs.AppendFreshUnique(characters, IdOfCharacter, c);
      }
      characters := characters + [c];
      outcome := CharacterCreated;
    }

    /**
     * update_a_Fable_Character: creator only; the first character with the
     * id gets the new name and nothing else changes. The handler as written
     * looks the id up under the wrong request parameter (see
     * CharacterToUpdateAsWritten below); this method takes the id the route
     * binds.
     */
    method UpdateCharacter(caller: string, characterId: ObjectId, newName: Option<string>)
      returns (outcome: Outcome)
      modifies this
      ensures !old(IsCreator(caller)) ==> outcome == NotAuthorized && Doc() == old(Doc())
      ensures old(IsCreator(caller)) && SubDocs.Find(old(characters), IdOfCharacter, characterId).None? ==>
        outcome == CharacterNotFound && Doc() == old(Doc())
      ensures old(IsCreator(caller)) && SubDocs.Find(old(characters), IdOfCharacter, characterId).Some? ==>
        var i := SubDocs.Find(old(characters), IdOfCharacter, characterId).value;
        && outcome == CharacterUpdated
        && Doc() == old(Doc()).(characters := old(characters)[i := old(characters)[i].(name := newName)])
      ensures old(SubDocs.UniqueIds(characters, IdOfCharacter)) ==> SubDocs.UniqueIds(characters, IdOfCharacter)
    {
      if creator != Some(caller) {
        return NotAuthorized;
      }
      var found := SubDocs.Find(characters, IdOfCharacter, characterId);
      if found.None? {
        return CharacterNotFound;
      }
      var i := found.value;
      if SubDocs.UniqueIds(characters, IdOfCharacter) {
        SubDocs.SameKeyUnique(characters, IdOfCharacter, i, characters[i].(name := newName));
      }
      characters := characters[i := characters[i].(name := newName)];
      outcome := CharacterUpdated;
    }

    /**
     * delete_a_Fable_Character: no creator check; every character with the
     * id is pulled, which with unique ids is exactly the one found.
     */
    method DeleteCharacter(characterId: ObjectId) returns (outcome: Outcome)
      modifies this
      ensures SubDocs.Find(old(characters), IdOfCharacter, characterId).None? ==>
        outcome == CharacterNotFound && Doc() == old(Doc())
      ensures SubDocs.Find(old(characters), IdOfCharacter, characterId).Some? ==>
        && outcome == CharacterDeleted
        && Doc() == old(Doc()).(characters := SubDocs.Pull(old(characters), IdOfCharacter, characterId))
      ensures old(SubDocs.UniqueIds(characters, IdOfCharacter))
              && SubDocs.Find(old(characters), IdOfCharacter, characterId).Some? ==>
        var i := SubDocs.Find(old(characters), IdOfCharacter, characterId).value;
        characters == old(characters[..i] + characters[i + 1..])
    {
      var found := SubDocs.Find(characters, IdOfCharacter, characterId);
      if found.None? {
        return CharacterNotFound;
      }
      if SubDocs.UniqueIds(characters, IdOfCharacter) {
        SubDocs.PullUnique(characters, IdOfCharacter, characterId, found.value);
      }
      characters := SubDocs.Pull(characters, IdOfCharacter, characterId);
      outcome := CharacterDeleted;
    }
  }

  /** The request parameters the route `/api/fable/characters/:collectionId/:characterId` binds. */
  function CharacterRouteParams(collectionId: ObjectId, characterId: ObjectId): map<string, ObjectId> {
    map["collectionId" := collectionId, "characterId" := characterId]
  }

  /** `req.params[key]`, `undefined` when the route binds no such name. */
  function Param(params: map<string, ObjectId>, key: string): Option<ObjectId> {
    if key in params then Some(params[key]) else None
  }

  /** `characters.id(x)` when `x` may be `undefined`: nothing carries an undefined id. */
  function FindBy(chars: seq<Character>, id: Option<ObjectId>): Option<nat> {
    if id.Some? then SubDocs.Find(chars, IdOfCharacter, id.value) else None
  }

  /** The character update_a_Fable_Character looks up as written: `req.params.messageId`. */
  function CharacterToUpdateAsWritten(params: map<string, ObjectId>, chars: seq<Character>): Option<nat> {
    FindBy(chars, Param(params, "messageId"))
  }

  /** The character it evidently means to look up: `req.params.characterId`. */
  function CharacterToUpdate(params: map<string, ObjectId>, chars: seq<Character>): Option<nat> {
    FindBy(chars, Param(params, "characterId"))
  }

  /** As written, no request through the route ever finds a character to update. */
  lemma AsWrittenUpdateNeverFinds(collectionId: ObjectId, characterId: ObjectId, chars: seq<Character>)
    ensures CharacterToUpdateAsWritten(CharacterRouteParams(collectionId, characterId), chars).None?
  {
    assert "messageId" != "collectionId" && "messageId" != "characterId";
  }

  /** The concrete request: a Fable with one character, updated by that character's own id. */
  lemma AsWrittenUpdateMissesExisting()
    ensures var chars := [Character(7, Some("Fox"))];
      && SubDocs.Find(chars, IdOfCharacter, 7) == Some(0)
      && CharacterToUpdateAsWritten(CharacterRouteParams(1, 7), chars).None?
  {
    AsWrittenUpdateNeverFinds(1, 7, [Character(7, Some("Fox"))]);
  }

  /** Read from the parameter the route binds, the lookup finds the character with that id. */
  lemma CorrectedUpdateFinds(collectionId: ObjectId, characterId: ObjectId, chars: seq<Character>)
    ensures CharacterToUpdate(CharacterRouteParams(collectionId, characterId), chars) ==
      SubDocs.Find(chars, IdOfCharacter, characterId)
  {
  }
}
