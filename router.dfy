/**
 * The LINE webhook handlers: follow, unfollow and text message. Each one
 * updates the subscriber store and says what, if anything, is sent back
 * with the event's reply token. Whether the platform accepts a reply does
 * not affect the handlers, so the model records the reply asked for.
 */
module EventRouter {
  import opened PyStr
  import opened SubscriberRegistry

  const WelcomeText: string := "🎉 สวัสดีครับ! ขอบคุณที่เพิ่มเพื่อน\n\nคุณสามารถส่งข้อความมาคุยกับเราได้เลยนะครับ!"
  const WelcomeBackText: string := "ยินดีต้อนรับกลับครับ! 😊"

  const GreetingWords: seq<string> := ["สวัสดี", "hello", "hi", "หวัดดี"]
  const ThanksWords: seq<string> := ["ขอบคุณ", "thank you", "thanks"]
  const IdKeyword: string := "user id"

  const GreetingPrefix: string := "สวัสดีครับ! 😊\nUser ID: "
  const ThanksReply: string := "ยินดีครับ! มีอะไรให้ช่วยอีกไหมครับ? 🙏"
  const IdPrefix: string := "User ID ของคุณคือ: "

  datatype Event =
    | Follow(userId: string, replyToken: string)
    | Unfollow(userId: string)
    | TextMessage(userId: string, replyToken: string, text: string)

  /** What a handler does on the way out. */
  datatype Action =
    | SendReply(replyToken: string, text: string)
    | NoSend
    | ReplyTextUnbound
      // `reply_text` was never assigned: the handler raises before any
      // reply, after the sender has been saved

  /** The text a follow is answered with. */
  function FollowReply(isNewUser: bool): (text: string)
  {
    if isNewUser then WelcomeText else WelcomeBackText
  }

  /** The two welcome texts differ, so the reply tells a first follow from a
      repeated one. */
  lemma FollowReplyTellsNewUsers(isNewUser: bool)
    ensures FollowReply(isNewUser) == WelcomeText <==> isNewUser
    ensures FollowReply(isNewUser) == WelcomeBackText <==> !isNewUser
  {
    assert |WelcomeText| != |WelcomeBackText|;
  }

  datatype Category = Greeting | Thanks | IdQuery | Unmatched

  /** The branch of `handle_message` taken for `text`: the stripped,
      lower-cased text is looked up among the greetings first, then among the
      thanks, then searched for "user id". */
  function Classify(text: string): Category
  {
    var t := Lower(Strip(text));
    if t in GreetingWords then Greeting
    else if t in ThanksWords then Thanks
    else if Contains(t, IdKeyword) then IdQuery
    else Unmatched
  }

  /** The reply of `handle_message` for a category; none for Unmatched. */
  function ReplyText(category: Category, userId: string): (r: Option<string>)
  {
    match category
    case Greeting => Some(GreetingPrefix + userId)
    case Thanks => Some(ThanksReply)
    case IdQuery => Some(IdPrefix + userId)
    case Unmatched => None
  }

  datatype Option<T> = None | Some(value: T)

  /** Whitespace around a message does not change how it is answered. */
  lemma ClassifyIgnoresPadding(a: string, text: string, b: string)
    requires AllSpace(a) && AllSpace(b)
    ensures Classify(a + text + b) == Classify(text)
  {
    StripPadded(a, text, b);
  }

  /** Messages that agree up to ASCII case are answered alike. */
  lemma ClassifyIgnoresCase(t1: string, t2: string)
    requires Lower(t1) == Lower(t2)
    ensures Classify(t1) == Classify(t2)
  {
    StripLower(t1);
    StripLower(t2);
  }

  /** No greeting or thanks word contains "user id", so every message that
      mentions it (in any case, with any padding) is an id query. */
  lemma MentionIsIdQuery(text: string)
    requires Contains(Lower(Strip(text)), IdKeyword)
    ensures Classify(text) == IdQuery
  {
    var t := Lower(Strip(text));
    ContainsSomewhere(t, IdKeyword);
    var k :| OccursAt(t, IdKeyword, k);
    assert t[k] == 'u' && k + 7 <= |t| by {
      assert t[k..k + 7][0] == t[k];
    }
    NoWordMentionsId(t, k);
  }

  /** Only "thank you" among the words is as long as "user id", and its
      first three characters are not 'u'. */
  lemma NoWordMentionsId(t: string, k: nat)
    requires k + 7 <= |t| && t[k] == 'u'
    ensures t !in GreetingWords && t !in ThanksWords
  {
    var thankYou := "thank you";
    assert thankYou[0] != 'u' && thankYou[1] != 'u' && thankYou[2] != 'u';
  }

  /** The greeting and id replies name the sender. */
  lemma ReplyNamesSender(category: Category, userId: string)
    requires category == Greeting || category == IdQuery
    ensures ReplyText(category, userId).Some?
    ensures Contains(ReplyText(category, userId).value, userId)
  {
    var prefix := if category == Greeting then GreetingPrefix else IdPrefix;
    var r := prefix + userId;
    assert r[|prefix|..|prefix| + |userId|] == userId;
    ContainsAt(r, userId, |prefix|);
  }

  /** "hello" from a known user is answered with the greeting, which names
      that user. */
  lemma HelloIsGreeting(userId: string)
    ensures Classify("  Hello ") == Greeting
    ensures ReplyText(Classify("  Hello "), userId) == Some(GreetingPrefix + userId)
  {
    assert AllSpace("  ") && AllSpace(" ");
    StripUnique("  ", "Hello", " ");
    assert "  " + "Hello" + " " == "  Hello ";
    assert Lower("Hello") == "hello";
  }

  /** What `handle_message` does with the text once the sender is saved. */
  function MessageAction(userId: string, replyToken: string, text: string): Action
  {
    match ReplyText(Classify(text), userId)
    case Some(reply) => SendReply(replyToken, reply)
    case None => ReplyTextUnbound
  }

  /** `handle_follow`: save the follower, then answer with the welcome text
      when the save reported a new id and with the welcome-back text when
      it did not. */
  method HandleFollow(store: SubscriberStore, userId: string, replyToken: string)
    returns (action: Action)
    requires store.Valid()
    modifies store
    ensures store.Valid() && store.lines == Saved(old(store.lines), userId)
    ensures action == SendReply(replyToken, FollowReply(userId !in old(store.Ids())))
  {
    var isNewUser := store.SaveUserId(userId);
    action := SendReply(replyToken, FollowReply(isNewUser));
  }

  /** `handle_unfollow`: remove the id; nothing is sent. */
  method HandleUnfollow(store: SubscriberStore, userId: string) returns (action: Action)
    requires store.Valid()
    modifies store
    ensures store.Valid() && store.lines == Removed(old(store.lines), userId)
    ensures action == NoSend
  {
    var _ := store.RemoveUserId(userId);
    action := NoSend;
  }

  /** `handle_message`: save the sender whatever the text, then answer by the
      text's category; an unmatched text leaves no reply to send. */
  method HandleMessage(store: SubscriberStore, userId: string, replyToken: string, text: string)
    returns (action: Action)
    requires store.Valid()
    modifies store
    ensures store.Valid() && store.lines == Saved(old(store.lines), userId)
    ensures action == MessageAction(userId, replyToken, text)
    ensures action == ReplyTextUnbound <==> Classify(text) == Unmatched
  {
    var _ := store.SaveUserId(userId);
    var t := Lower(Strip(text));
    if t in GreetingWords {
      action := SendReply(replyToken, GreetingPrefix + userId);
    } else if t in ThanksWords {
      action := SendReply(replyToken, ThanksReply);
    } else if Contains(t, IdKeyword) {
      action := SendReply(replyToken, IdPrefix + userId);
    } else {
      action := ReplyTextUnbound;
    }
  }

  /** The handler registered for each event kind. */
  method HandleEvent(store: SubscriberStore, event: Event) returns (action: Action)
    requires store.Valid()
    modifies store
    ensures store.Valid()
    ensures event.Unfollow? ==> store.lines == Removed(old(store.lines), event.userId) && action == NoSend
    ensures !event.Unfollow? ==> store.lines == Saved(old(store.lines), event.userId)
    ensures event.Follow? ==> action == SendReply(event.replyToken, FollowReply(event.userId !in old(store.Ids())))
    ensures event.TextMessage? ==> action == MessageAction(event.userId, event.replyToken, event.text)
  {
    match event
    case Follow(userId, replyToken) =>
      action := HandleFollow(store, userId, replyToken);
    case Unfollow(userId) =>
      action := HandleUnfollow(store, userId);
    case TextMessage(userId, replyToken, text) =>
      action := HandleMessage(store, userId, replyToken, text);
  }
}
