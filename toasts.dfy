/**
 * The notification list of `App` (src/App.tsx:341, 359-364): every
 * provider's callbacks append to it, and a toast closing (by the user or by
 * its auto-hide timer) removes that very message object.
 */
module Toasts {
  import opened Messages

  /** `addToast`: the list with `message` appended at the end. */
  function AddToast(messages: seq<Message>, message: Message): (r: seq<Message>)
    ensures |r| == |messages| + 1
    ensures r[..|messages|] == messages && r[|messages|] == message
  {
    messages + [message]
  }

  /**
   * `closeToast`: `messages.filter(e => e !== message)`, so every entry that
   * is the same object as `message` goes, and entries that merely have the
   * same level and text stay.
   */
  function CloseToast(messages: seq<Message>, message: Message): (r: seq<Message>)
    ensures message !in r
    ensures multiset(r) == multiset(messages)[message := 0]
  {
    if messages == [] then []
    else
      assert messages == [messages[0]] + messages[1..];
      (if messages[0] == message then [] else [messages[0]]) + CloseToast(messages[1..], message)
  }

  /** Closing keeps the remaining entries in their order: it works piecewise on any split of the list. */
  lemma {:induction false} CloseToastSplits(a: seq<Message>, b: seq<Message>, message: Message)
    ensures CloseToast(a + b, message) == CloseToast(a, message) + CloseToast(b, message)
  {
    if a == [] {
      assert a + b == b;
    } else {
      assert (a + b)[1..] == a[1..] + b;
      CloseToastSplits(a[1..], b, message);
    }
  }

  /** Closing a message that is not listed changes nothing. */
  lemma {:induction false} CloseAbsent(messages: seq<Message>, message: Message)
    requires message !in messages
    ensures CloseToast(messages, message) == messages
  {
    if messages != [] {
      CloseAbsent(messages[1..], message);
    }
  }

  /** Closing the same toast twice is the same as closing it once. */
  lemma CloseIdempotent(messages: seq<Message>, message: Message)
    ensures CloseToast(CloseToast(messages, message), message) == CloseToast(messages, message)
  {
    CloseAbsent(CloseToast(messages, message), message);
  }

  /** Closing a message right after adding it restores the list, when it was not listed before. */
  lemma CloseUndoesAdd(messages: seq<Message>, message: Message)
    requires message !in messages
    ensures CloseToast(AddToast(messages, message), message) == messages
  {
    CloseToastSplits(messages, [message], message);
    CloseAbsent(messages, message);
  }

  /** Closing one message does not disturb a different one added later. */
  lemma CloseCommutesWithOtherAdd(messages: seq<Message>, added: Message, closed: Message)
    requires added != closed
    ensures CloseToast(AddToast(messages, added), closed) == AddToast(CloseToast(messages, closed), added)
  {
    CloseToastSplits(messages, [added], closed);
  }

  /**
   * Two messages with the same level and text are distinct toasts: closing
   * one leaves the other listed.
   */
  lemma CloseKeepsOtherObjects(messages: seq<Message>, shown: Message, twin: Message)
    requires shown in messages && shown != twin
    ensures shown in CloseToast(messages, twin)
  {
    assert shown in multiset(messages);
    assert shown in multiset(CloseToast(messages, twin));
  }
}
