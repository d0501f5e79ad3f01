/** Properties of the subscription table that `DIS_subscribe`,
    `DIS_unsubscribe`, `DIS_init` and the notification loop of
    `DIS_process` share: which callbacks a received topic fires, and how
    each table operation changes that set. */
module Subscriptions {
  import opened Config
  import opened DispatchSpec

  /** A callback list with every occurrence of `cb` taken out, order kept. */
  function Without(s: seq<nat>, cb: nat): (r: seq<nat>)
    ensures |r| <= |s|
    ensures forall x :: x in r <==> x in s && x != cb
  {
    if s == [] then []
    else Without(s[..|s| - 1], cb) + (if s[|s| - 1] == cb then [] else [s[|s| - 1]])
  }

  /** The notification loop fires `cb` for `topic` exactly when `cb` is not
      null and some slot holds both `cb` and `topic`. */
  lemma {:induction false} MatchingMembers(slots: seq<Subscription>, topic: seq<char>, cb: nat)
    ensures cb in Matching(slots, topic) <==>
            cb != 0 && exists i :: 0 <= i < |slots| && slots[i].callback == cb && SlotTopic(slots[i].topic) == topic
    decreases |slots|
  {
    if slots != [] {
      var init := slots[..|slots| - 1];
      MatchingMembers(init, topic, cb);
      if cb in Matching(init, topic) {
        var i :| 0 <= i < |init| && init[i].callback == cb && SlotTopic(init[i].topic) == topic;
        assert slots[i] == init[i];
      }
      if exists i :: 0 <= i < |slots| && slots[i].callback == cb && SlotTopic(slots[i].topic) == topic {
        var i :| 0 <= i < |slots| && slots[i].callback == cb && SlotTopic(slots[i].topic) == topic;
        if i < |init| {
          assert init[i] == slots[i];
        }
      }
    }
  }

  /** Every callback the loop fires comes from a distinct slot. */
  lemma {:induction false} MatchingBounded(slots: seq<Subscription>, topic: seq<char>)
    ensures |Matching(slots, topic)| <= |slots|
    ensures 0 !in Matching(slots, topic)
    decreases |slots|
  {
    if slots != [] {
      MatchingBounded(slots[..|slots| - 1], topic);
    }
  }

  /** A table with no callback fires nothing. */
  lemma {:induction false} NoCallbacksNoMatches(slots: seq<Subscription>, topic: seq<char>)
    requires forall i :: 0 <= i < |slots| ==> slots[i].callback == 0
    ensures Matching(slots, topic) == []
    decreases |slots|
  {
    if slots != [] {
      NoCallbacksNoMatches(slots[..|slots| - 1], topic);
    }
  }

  /** After `DIS_init` every slot is empty, so no topic fires anything,
      whatever the slots held before. */
  lemma InitSilences(slots: seq<Subscription>, topic: seq<char>)
    requires forall i :: 0 <= i < |slots| ==> |slots[i].topic| > 0
    ensures Matching(seq(|slots|, i requires 0 <= i < |slots| => Cleared(slots[i])), topic) == []
  {
    var cleared := seq(|slots|, i requires 0 <= i < |slots| => Cleared(slots[i]));
    NoCallbacksNoMatches(cleared, topic);
  }

  /** Emptying slots commutes with taking a prefix of the table. */
  lemma UnsubscribedPrefix(slots: seq<Subscription>, cb: nat, k: nat)
    requires forall i :: 0 <= i < |slots| ==> |slots[i].topic| > 0
    requires k <= |slots|
    ensures Unsubscribed(slots, cb)[..k] == Unsubscribed(slots[..k], cb)
  {
  }

  /** `DIS_unsubscribe(cb)` removes exactly `cb` from what every topic
      fires and keeps the other callbacks in their order. */
  lemma {:induction false} UnsubscribeRemoves(slots: seq<Subscription>, cb: nat, topic: seq<char>)
    requires forall i :: 0 <= i < |slots| ==> |slots[i].topic| > 0
    ensures Matching(Unsubscribed(slots, cb), topic) == Without(Matching(slots, topic), cb)
    decreases |slots|
  {
    if slots != [] {
      var k := |slots| - 1;
      var init := slots[..k];
      var r := Unsubscribed(slots, cb);
      UnsubscribedPrefix(slots, cb, k);
      assert r[..|r| - 1] == Unsubscribed(init, cb);
      UnsubscribeRemoves(init, cb, topic);
      MatchingBounded(init, topic);
      var last := slots[k];
      var mi := Matching(init, topic);
      var fires := SlotTopic(last.topic) == topic && last.callback != 0;
      assert Matching(slots, topic) == mi + (if fires then [last.callback] else []);
      assert Matching(r, topic) ==
             Matching(Unsubscribed(init, cb), topic) +
             (if SlotTopic(r[k].topic) == topic && r[k].callback != 0 then [r[k].callback] else []);
      assert r[k] == if last.callback == cb then Cleared(last) else last;
      if fires {
        WithoutSnoc(mi, last.callback, cb);
      } else {
        assert mi + [] == mi;
      }
    }
  }

  /** Taking a callback out of a list that grew by one element. */
  lemma WithoutSnoc(s: seq<nat>, x: nat, cb: nat)
    ensures Without(s + [x], cb) == Without(s, cb) + (if x == cb then [] else [x])
  {
    assert (s + [x])[..|s|] == s;
  }

  /** `DIS_subscribe` copies the topic's characters without a terminator:
      the slot then holds the topic exactly when the old buffer already had
      a terminator just past it. */
  lemma OverwrittenTopic(topic: seq<char>, buf: seq<char>)
    requires IsCString(topic) && |topic| < |buf|
    ensures SlotTopic(topic + buf[|topic|..]) == topic <==> buf[|topic|] == 0 as char
  {
    var b := topic + buf[|topic|..];
    var k := NulIndex(b, 0);
    assert b[|topic|] == buf[|topic|];
    if buf[|topic|] == 0 as char {
      assert k == |topic|;
      assert b[..k] == topic;
    }
  }

  /** `DIS_subscribe` into a table with a free slot: the callback takes
      the first free slot, and fires for its topic when that slot's buffer
      ends the copied characters; no other slot changes. */
  lemma SubscribeTakesFreeSlot(slots: seq<Subscription>, topic: seq<char>, cb: nat)
    requires IsCString(topic) && forall i :: 0 <= i < |slots| ==> |topic| < |slots[i].topic|
    requires FirstFree(slots, 0) < |slots|
    ensures var f := FirstFree(slots, 0);
            var r := Subscribed(slots, topic, cb);
            |r| == |slots| && r[f].callback == cb &&
            (SlotTopic(r[f].topic) == topic <==> slots[f].topic[|topic|] == 0 as char) &&
            forall i :: 0 <= i < |slots| && i != f ==> r[i] == slots[i]
  {
    var f := FirstFree(slots, 0);
    OverwrittenTopic(topic, slots[f].topic);
  }

  /** With a free slot whose buffer ends right after the copied topic,
      the new callback fires for that topic. */
  lemma SubscribeFires(slots: seq<Subscription>, topic: seq<char>, cb: nat)
    requires IsCString(topic) && forall i :: 0 <= i < |slots| ==> |topic| < |slots[i].topic|
    requires FirstFree(slots, 0) < |slots|
    requires slots[FirstFree(slots, 0)].topic[|topic|] == 0 as char && cb != 0
    ensures cb in Matching(Subscribed(slots, topic, cb), topic)
  {
    var f := FirstFree(slots, 0);
    SubscribeTakesFreeSlot(slots, topic, cb);
    MatchingMembers(Subscribed(slots, topic, cb), topic, cb);
  }

  /** `DIS_subscribe` only takes a slot whose callback was null, so every
      callback that fired for a topic before still fires for it. */
  lemma SubscribeKeeps(slots: seq<Subscription>, topic: seq<char>, cb: nat, t: seq<char>, c: nat)
    requires IsCString(topic) && forall i :: 0 <= i < |slots| ==> |topic| < |slots[i].topic|
    ensures c in Matching(slots, t) ==> c in Matching(Subscribed(slots, topic, cb), t)
  {
    var r := Subscribed(slots, topic, cb);
    MatchingMembers(slots, t, c);
    MatchingMembers(r, t, c);
    if c in Matching(slots, t) {
      var i :| 0 <= i < |slots| && slots[i].callback == c && SlotTopic(slots[i].topic) == t;
      if FirstFree(slots, 0) < |slots| {
        SubscribeTakesFreeSlot(slots, topic, cb);
      }
      assert r[i] == slots[i];
    }
  }

  /** Slots with a null callback at the end of the table fire nothing. */
  lemma {:induction false} MatchingTail(slots: seq<Subscription>, k: nat, topic: seq<char>)
    requires k <= |slots|
    requires forall i :: k <= i < |slots| ==> slots[i].callback == 0
    ensures Matching(slots, topic) == Matching(slots[..k], topic)
    decreases |slots|
  {
    if |slots| > k {
      var init := slots[..|slots| - 1];
      MatchingTail(init, k, topic);
      assert init[..k] == slots[..k];
    } else {
      assert slots[..k] == slots;
    }
  }

  /** The table `DIS_init` leaves at program start, when static storage is zero. */
  function StartTable(): (slots: seq<Subscription>)
    ensures |slots| == MAX_NUM_OF_SUBSCRIPTIONS
    ensures forall i :: 0 <= i < |slots| ==> SlotOk(slots[i]) && slots[i].callback == 0
  {
    seq(MAX_NUM_OF_SUBSCRIPTIONS, _ => EmptySlot())
  }

  /** Old characters outlive `DIS_unsubscribe`: subscribe a callback to
      "abc", unsubscribe it, subscribe it to "ab", and the slot now holds
      "abc", so "ab" fires nothing and "abc" fires the callback. */
  lemma StaleTopic()
    ensures var s1 := Subscribed(StartTable(), "abc", 7);
            var s2 := Unsubscribed(s1, 7);
            var s3 := Subscribed(s2, "ab", 7);
            Matching(s3, "ab") == [] && Matching(s3, "abc") == [7]
  {
    var s0 := StartTable();
    var s1 := Subscribed(s0, "abc", 7);
    var s2 := Unsubscribed(s1, 7);
    var s3 := Subscribed(s2, "ab", 7);
    assert FirstFree(s0, 0) == 0;
    assert s1[0].topic[..4] == "abc" + [0 as char];
    assert s2[0].topic[..4] == [0 as char] + "bc" + [0 as char];
    assert FirstFree(s2, 0) == 0;
    var buf := s3[0].topic;
    assert buf[..4] == "abc" + [0 as char];
    assert buf[0] == 'a' && buf[1] == 'b' && buf[2] == 'c' && buf[3] == 0 as char;
    assert NulIndex(buf, 0) == 3;
    assert SlotTopic(buf) == "abc";
    MatchingTail(s3, 1, "ab");
    MatchingTail(s3, 1, "abc");
    assert s3[..1][..0] == [];
  }
}
