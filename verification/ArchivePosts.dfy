/** The second ring of the MWA archive client: posts on their way to the monitor and control system. */
module ArchivePosts {
  import opened ArchiveQueue
  import opened ArchiveProtocol
  import Text

  /** What the sender cuts a post into. */
  function Fields(post: string): seq<string> {
    Text.Split(post, '|')
  }

  lemma NumbersLackBar(o: Outcome)
    ensures '|' !in Text.Decimal(o.size) && '|' !in Text.SignedDecimal(o.status)
  {
    Text.DecimalRoundTrip(o.size);
    Text.DecimalRoundTrip(if o.status < 0 then -o.status else o.status);
  }

  /** The sender finds URI, size and status where it looks for them exactly when the name has no '|'. */
  lemma PostFieldsIff(o: Outcome)
    ensures Fields(PostText(o))
            == ["http://mwangas/RETRIEVE?file_id=" + BaseName(o.file), Text.Decimal(o.size), Text.SignedDecimal(o.status)]
       <==> '|' !in BaseName(o.file)
  {
    var uri, size, status := URI + BaseName(o.file), Text.Decimal(o.size), Text.SignedDecimal(o.status);
    var parts := [uri, size, status];
    NumbersLackBar(o);
    UriLacksBar();
    assert PostText(o) == uri + "|" + size + "|" + status;
    JoinThree(uri, size, status);
    hide BaseName, Text.Decimal, Text.SignedDecimal, PostText;
    Text.SplitPartsLackSeparator(PostText(o), '|');
    if '|' !in BaseName(o.file) {
      Text.SplitJoin(parts, '|');
    } else {
      assert '|' in uri && uri in parts;
    }
  }

  lemma JoinThree(a: string, b: string, c: string)
    ensures Text.Join([a, b, c], '|') == a + "|" + b + "|" + c
  {
    assert [a, b, c][1..] == [b, c] && [b, c][1..] == [c];
    assert Text.Join([c], '|') == c;
    assert Text.Join([b, c], '|') == b + ['|'] + c;
    assert a + ['|'] + (b + ['|'] + c) == a + "|" + b + "|" + c;
  }

  lemma UriLacksBar()
    ensures '|' !in URI[..16] && '|' !in URI[16..] && '|' !in URI
  {
    assert URI == URI[..16] + URI[16..];
  }

  class PostQueue {
    const sendToMCQueue: array<string>
    var sendToMCQueueRdIdx: nat
    var sendToMCQueueWrIdex: nat
    var sendToMCQueueCount: int

    ghost predicate Valid()
      reads this
    {
      sendToMCQueue.Length == MAX_FILES_IN_Q && sendToMCQueueRdIdx < MAX_FILES_IN_Q && sendToMCQueueWrIdex < MAX_FILES_IN_Q
    }

    ghost function Posts(): (r: Ring)
      reads this, sendToMCQueue
      ensures Valid() ==> r.Valid()
    {
      Ring(sendToMCQueue[..], sendToMCQueueRdIdx, sendToMCQueueWrIdex)
    }

    constructor ()
      ensures Valid() && fresh(sendToMCQueue) && Posts() == EMPTY_RING && sendToMCQueueCount == 0
    {
      sendToMCQueue := new string[MAX_FILES_IN_Q](_ => "");
      sendToMCQueueRdIdx, sendToMCQueueWrIdex, sendToMCQueueCount := 0, 0, 0;
      new;
      assert sendToMCQueue[..] == EMPTY_RING.slots;
    }

    /** ngamsScheduleSendToMC: a post too long for a slot is dropped, and a full ring is not noticed. */
    method ScheduleSendToMC(postContent: string) returns (status: Status)
      requires Valid()
      modifies this, sendToMCQueue
      ensures Valid() && status == (if |postContent| >= MED_BUF then Failure else Success)
      ensures Posts() == if status == Success then old(Posts()).Store(postContent) else old(Posts())
      ensures sendToMCQueueCount == old(sendToMCQueueCount) + if status == Success then 1 else 0
    {
      var newWrIdx := (sendToMCQueueWrIdex + 1) % MAX_FILES_IN_Q;
      if |postContent| >= MED_BUF { return Failure; }
      sendToMCQueue[newWrIdx] := postContent;
      sendToMCQueueWrIdex := newWrIdx;
      sendToMCQueueCount := sendToMCQueueCount + 1;
      status := Success;
      assert Posts() == old(Posts()).Store(postContent);
    }

    method HasPendingPostToSend() returns (pending: bool, newRdIdx: nat)
      requires Valid()
      ensures pending == Posts().HasPending() && newRdIdx == Next(sendToMCQueueRdIdx)
    {
      newRdIdx := (sendToMCQueueRdIdx + 1) % MAX_FILES_IN_Q;
      pending := sendToMCQueue[newRdIdx] != "";
    }

    /** The locked section at the top of the sender's loop; None is the wait on the condition. The
        counter goes down only once the post has been sent. */
    method TakePost() returns (taken: bool, post: string)
      requires Valid()
      modifies this, sendToMCQueue
      ensures Valid() && taken == old(Posts()).HasPending() && sendToMCQueueCount == old(sendToMCQueueCount)
      ensures taken ==> post == old(Posts()).Head() && Posts() == old(Posts()).Drop()
      ensures !taken ==> Posts() == old(Posts())
    {
      var newRdIdx;
      taken, newRdIdx := HasPendingPostToSend();
      post := "";
      if taken {
        post := sendToMCQueue[newRdIdx];
        sendToMCQueue[newRdIdx] := "";
        sendToMCQueueRdIdx := newRdIdx;
        assert Posts() == old(Posts()).Drop();
      }
    }

    /** One turn of the sender's loop: the post is sent between the two locked sections. */
    method SenderTurn() returns (sent: bool, post: string)
      requires Valid()
      modifies this, sendToMCQueue
      ensures Valid() && sent == old(Posts()).HasPending()
      ensures sent ==> post == old(Posts()).Head() && Posts() == old(Posts()).Drop()
      ensures !sent ==> Posts() == old(Posts())
      ensures sendToMCQueueCount == old(sendToMCQueueCount) - if sent then 1 else 0
    {
      sent, post := TakePost();
      if sent {
        sendToMCQueueCount := sendToMCQueueCount - 1;
      }
    }
  }
}
