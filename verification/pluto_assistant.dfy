/**
 * The Pluto companion's chat: a non-blank message is appended as the user's
 * line and answered by a canned reply chosen by the first keyword group the
 * lower-cased message mentions. The reply's delay is not modelled: it is
 * appended right after the user's line.
 */
module PlutoAssistant {
  import opened Strings

  const Woof := "Woof! \U{1F43E} I'm Pluto, here to brighten your day!"
  const Greeting := "Woof woof! \U{1F43E} Hi there! I'm Pluto, your friendly companion. How can I help you today?"
  const Encouragement := "I see you're working hard! Remember to take breaks and stay hydrated. You're doing great! \U{1F415}\U{1F499}"
  const Comfort := "I understand! Take a deep breath. Maybe stretch a bit or take a short walk. I'll be here cheering you on! \U{1F31F}"
  const Companionship := "I'm here to be your companion and offer encouragement! Tell me how you're feeling or what's on your mind. \U{1F499}"
  const Cheer := "That's wonderful! Your positive energy makes my tail wag! Keep up the amazing work! \U{1F389}\U{1F415}"
  const Fallback := "Thanks for chatting with me! I may be a virtual pup, but I'm always here to listen and support you! \U{1F43E}\U{1F499}"

  /** The keyword groups in the order they are tried. */
  const KeywordGroups: seq<seq<string>> :=
    [["hello", "hi"], ["task", "work"], ["tired", "stressed"], ["help"], ["good", "great", "happy"]]

  /** The reply each group earns, followed by the fallback for a message that mentions none. */
  const Replies: seq<string> := [Greeting, Encouragement, Comfort, Companionship, Cheer, Fallback]

  /** The lower-cased message contains one of the words. */
  predicate Mentions(lower: string, words: seq<string>) {
    exists w :: w in words && Contains(lower, w)
  }

  /** Which branch of the handler's if-chain answers the message: a group, or 5 for the fallback. */
  function Branch(message: string): (k: nat)
    ensures k < |Replies|
  {
    var lower := ToLower(message);
    if Contains(lower, "hello") || Contains(lower, "hi") then 0
    else if Contains(lower, "task") || Contains(lower, "work") then 1
    else if Contains(lower, "tired") || Contains(lower, "stressed") then 2
    else if Contains(lower, "help") then 3
    else if Contains(lower, "good") || Contains(lower, "great") || Contains(lower, "happy") then 4
    else 5
  }

  /** The response to a message; the initial "Woof!" text is always overwritten. */
  function Reply(message: string): (r: string)
    ensures r in Replies && r != Woof
  {
    Replies[Branch(message)]
  }

  /**
   * Group `k` answers exactly when the message mentions a word of group `k`
   * and of no earlier group.
   */
  lemma ReplyIsFirstMatch(message: string, k: int)
    requires 0 <= k < |KeywordGroups|
    ensures Branch(message) == k
        <==> Mentions(ToLower(message), KeywordGroups[k])
             && forall j :: 0 <= j < k ==> !Mentions(ToLower(message), KeywordGroups[j])
  {
    GroupsSpelledOut(ToLower(message));
  }

  /** The fallback answers exactly when the message mentions no keyword at all. */
  lemma ReplyFallback(message: string)
    ensures Branch(message) == |KeywordGroups|
        <==> forall j :: 0 <= j < |KeywordGroups| ==> !Mentions(ToLower(message), KeywordGroups[j])
  {
    GroupsSpelledOut(ToLower(message));
  }

  /** Each group's mention test is the disjunction the handler writes out. */
  lemma GroupsSpelledOut(lower: string)
    ensures Mentions(lower, KeywordGroups[0]) <==> Contains(lower, "hello") || Contains(lower, "hi")
    ensures Mentions(lower, KeywordGroups[1]) <==> Contains(lower, "task") || Contains(lower, "work")
    ensures Mentions(lower, KeywordGroups[2]) <==> Contains(lower, "tired") || Contains(lower, "stressed")
    ensures Mentions(lower, KeywordGroups[3]) <==> Contains(lower, "help")
    ensures Mentions(lower, KeywordGroups[4])
        <==> Contains(lower, "good") || Contains(lower, "great") || Contains(lower, "happy")
  {
    MentionsListed(lower, KeywordGroups[0]);
    MentionsListed(lower, KeywordGroups[1]);
    MentionsListed(lower, KeywordGroups[2]);
    MentionsListed(lower, KeywordGroups[3]);
    MentionsListed(lower, KeywordGroups[4]);
  }

  /** A mention of a short word list, written out word by word. */
  lemma MentionsListed(lower: string, words: seq<string>)
    requires 1 <= |words| <= 3
    ensures |words| == 1 ==> (Mentions(lower, words) <==> Contains(lower, words[0]))
    ensures |words| == 2 ==> (Mentions(lower, words) <==> Contains(lower, words[0]) || Contains(lower, words[1]))
    ensures |words| == 3 ==>
      (Mentions(lower, words) <==> Contains(lower, words[0]) || Contains(lower, words[1]) || Contains(lower, words[2]))
  {
    if Mentions(lower, words) {
      var w :| w in words && Contains(lower, w);
      var i :| 0 <= i < |words| && words[i] == w;
    }
    if Contains(lower, words[0]) {
      assert words[0] in words;
    }
    if |words| >= 2 && Contains(lower, words[1]) {
      assert words[1] in words;
    }
    if |words| == 3 && Contains(lower, words[2]) {
      assert words[2] in words;
    }
  }

  /**
   * Matching is by substring: a message about a task that happens to contain
   * "hi" inside a word ("this") is greeted rather than encouraged.
   */
  lemma SubstringGreets()
    ensures Reply("this task") == Greeting
  {
    var lower := ToLower("this task");
    assert lower[1..3] == "hi";
    assert OccursAt(lower, "hi", 1);
  }

  datatype Role = User | Pluto

  /** One line of the conversation. */
  datatype Line = Line(role: Role, text: string)

  /** The message box and the conversation so far. */
  datatype Chat = Chat(message: string, conversation: seq<Line>)

  /**
   * `handleSendMessage`: a blank message changes nothing. Otherwise the
   * message, as typed, is appended as the user's line, the box is cleared,
   * and Pluto's reply follows.
   */
  function SendMessage(chat: Chat): (r: Chat)
    ensures IsBlank(chat.message) ==> r == chat
    ensures !IsBlank(chat.message) ==>
      var n := |chat.conversation|;
      r.message == "" && |r.conversation| == n + 2 && r.conversation[..n] == chat.conversation
      && r.conversation[n] == Line(User, chat.message)
      && r.conversation[n + 1] == Line(Pluto, Reply(chat.message))
  {
    if IsBlank(chat.message) then chat
    else
      var withUser := chat.conversation + [Line(User, chat.message)];
      Chat("", withUser + [Line(Pluto, Reply(chat.message))])
  }

  /** The conversation is a run of user lines, each followed by `reply`'s answer to it. */
  predicate AnsweredBy(conversation: seq<Line>, reply: string -> string) {
    |conversation| % 2 == 0
    && forall i :: 0 <= i < |conversation| / 2 ==>
         conversation[2 * i] == Line(User, conversation[2 * i].text)
         && conversation[2 * i + 1] == Line(Pluto, reply(conversation[2 * i].text))
  }

  /** Appending a user line and its answer keeps the pairing. */
  lemma AppendKeepsAnswered(conversation: seq<Line>, text: string, reply: string -> string)
    requires AnsweredBy(conversation, reply)
    ensures AnsweredBy(conversation + [Line(User, text), Line(Pluto, reply(text))], reply)
  {
    var c := conversation + [Line(User, text), Line(Pluto, reply(text))];
    var n := |conversation|;
    forall i | 0 <= i < |c| / 2
      ensures c[2 * i] == Line(User, c[2 * i].text)
      ensures c[2 * i + 1] == Line(Pluto, reply(c[2 * i].text))
    {
      if i < n / 2 {
        assert c[2 * i] == conversation[2 * i];
        assert c[2 * i + 1] == conversation[2 * i + 1];
      } else {
        assert 2 * i == n;
      }
    }
  }

  /** Sending keeps every user line paired with Pluto's reply to it. */
  lemma SendKeepsAnswered(chat: Chat)
    requires AnsweredBy(chat.conversation, Reply)
    ensures AnsweredBy(SendMessage(chat).conversation, Reply)
  {
    if !IsBlank(chat.message) {
      var c := SendMessage(chat).conversation;
      AppendKeepsAnswered(chat.conversation, chat.message, Reply);
      assert c == chat.conversation + [Line(User, chat.message), Line(Pluto, Reply(chat.message))];
    }
  }
}
