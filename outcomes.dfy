/** What a controller operation reports back to its caller. */
module Outcomes {
  import opened Wrappers

  datatype Outcome =
    | LikeCreated(likesCount: Option<int>, dislikesCount: Option<int>)
    | DislikeCreated(likesCount: Option<int>, dislikesCount: Option<int>)
    | AlreadyLiked
    | AlreadyDisliked
    | MessageCreated
    | MessageUpdated
    | MessageDeleted
    | CharacterCreated
    | CharacterUpdated
    | CharacterDeleted
    | NotAuthorized
    | CommentNotFound
    | CharacterNotFound
      /** The caller was empty: nothing was appended, nothing saved and no reply sent. */
    | NoCaller

  /** The `message` of the JSON reply; `NoCaller` sends none. */
  function Reply(o: Outcome): string {
    match o
    case LikeCreated(_, _) => "Fable Like successfully created."
    case DislikeCreated(_, _) => "Fable dislike successfully created."
    case AlreadyLiked => "You cannot like more than once."
    case AlreadyDisliked => "You cannot dislike more than once."
    case MessageCreated => "Fable Message successfully created."
    case MessageUpdated => "Fable Message successfully updated."
    case MessageDeleted => "Fable Message successfully deleted."
    case CharacterCreated => "Fable Character successfully created."
    case CharacterUpdated => "Fable Character successfully updated."
    case CharacterDeleted => "Fable Character successfully deleted."
    case NotAuthorized => "Not authorized."
    case CommentNotFound => "Comment not found."
    case CharacterNotFound => "Character not found."
    case NoCaller => ""
  }
}
