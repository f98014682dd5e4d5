/**
 * How the harnesses' log records read back in the analysis scripts: which
 * records count as publishes and receives, under which message key, and
 * to which publishing node svs/analyze.py attributes a chat message when
 * the node identities have the form svs.py gives them.
 */
module Scenario {
  import opened Strings
  import opened Results
  import opened LogFormat
  import opened LogRows
  import SvsChat
  import PSyncEval
  import SyncpsEval
  import Analyze

  /** `get_svs_identity`: `/ndn/<name>-site/<name>/svs_chat/<name>`. */
  function SvsIdentity(name: string): string {
    "/ndn/" + name + "-site/" + name + "/svs_chat/" + name
  }

  lemma JoinCons(x: string, rest: seq<string>, sep: string)
    requires |rest| >= 1
    ensures Join([x] + rest, sep) == x + sep + Join(rest, sep)
  {
    assert ([x] + rest)[1..] == rest;
  }

  /** The components `split('/')` finds in a chat message of the identity of `name`. */
  function MessageParts(name: string, k: int): seq<string> {
    ["", "ndn", name + "-site", name, "svs_chat", name + "=" + IntToString(k)]
  }

  lemma JoinSix(a: string, b: string, c: string, d: string, e: string, f: string, sep: string)
    ensures Join([a, b, c, d, e, f], sep) == a + sep + b + sep + c + sep + d + sep + e + sep + f
  {
    JoinCons(e, [f], sep);
    JoinCons(d, [e, f], sep);
    JoinCons(c, [d, e, f], sep);
    JoinCons(b, [c, d, e, f], sep);
    JoinCons(a, [b, c, d, e, f], sep);
    assert [a, b, c, d, e, f] == [a] + [b, c, d, e, f];
    assert [b, c, d, e, f] == [b] + [c, d, e, f];
    assert [c, d, e, f] == [c] + [d, e, f];
    assert [d, e, f] == [d] + [e, f];
    assert [e, f] == [e] + [f];
  }

  lemma MessageIsJoin(name: string, k: int)
    ensures Join(MessageParts(name, k), "/") == Text(ChatMessage(SvsIdentity(name), k))
  {
    var n := IntToString(k);
    JoinSix("", "ndn", name + "-site", name, "svs_chat", name + "=" + n, "/");
    assert "/ndn/" == "/" + "ndn" + "/";
    assert "-site/" == "-site" + "/";
    assert "/svs_chat/" == "/" + "svs_chat" + "/";
    Regroup("/", "ndn", "-site", "svs_chat", "=", name, n);
  }

  /** The joined components regroup into the identity followed by `=n`. */
  lemma Regroup(sl: string, ndn: string, site: string, svs: string, eq: string, x: string, n: string)
    ensures "" + sl + ndn + sl + (x + site) + sl + x + sl + svs + sl + (x + eq + n)
         == (sl + ndn + sl) + x + (site + sl) + x + (sl + svs + sl) + x + eq + n
  {
  }

  lemma AppendAvoids(a: string, b: string, c: char)
    requires Avoids(a, c) && Avoids(b, c)
    ensures Avoids(a + b, c)
  {
    forall k | 0 <= k < |a + b| ensures (a + b)[k] != c {
      if k >= |a| {
        assert (a + b)[k] == b[k - |a|];
      }
    }
  }

  /**
   * With identities as svs.py builds them and messages `id=k`, the
   * component `msg.split('/')[3]` that svs/analyze.py takes for the
   * publisher is the publishing node's name.
   */
  lemma IdentityPublisher(name: string, k: int)
    requires Avoids(name, '/')
    ensures Publisher(Text(ChatMessage(SvsIdentity(name), k))) == Some(name)
  {
    var p := MessageParts(name, k);
    AppendAvoids(name, "-site", '/');
    AppendAvoids(name, "=", '/');
    AppendAvoids(name + "=", IntToString(k), '/');
    assert name + "=" + IntToString(k) == (name + "=") + IntToString(k);
    forall i | 0 <= i < |p| ensures Avoids(p[i], "/"[0]) {
    }
    MessageIsJoin(name, k);
    SplitJoin(p, "/");
  }

  // ----- classification of the tags -----

  lemma NoLongerOccurrence(s: string, sub: string)
    requires |sub| > |s|
    ensures !Occurs(s, sub)
  {
  }

  lemma NoOccurrenceOfDifferentTag(s: string, sub: string)
    requires |sub| == |s| && s != sub
    ensures !Occurs(s, sub)
  {
    forall i: nat ensures !OccursAt(s, sub, i) {
      if i + |sub| <= |s| {
        assert i == 0 && s[0..|sub|] == s;
      }
    }
  }

  lemma SelfOccurs(s: string)
    ensures Occurs(s, s)
  {
    assert OccursAt(s, s, 0) by {
      assert s[0..|s|] == s;
    }
  }

  /** A PUBL_MSG tag is a publish, nothing else. */
  lemma PublTagClass()
    ensures Contains(PublTag, PublTag) && !Contains(PublTag, RecvMsgTag) && !Contains(PublTag, SyncIntTag)
  {
    SelfOccurs(PublTag);
    NoOccurrenceOfDifferentTag(PublTag, RecvMsgTag);
    NoLongerOccurrence(PublTag, SyncIntTag);
  }

  /** A RECV_MSG tag is a receive, nothing else. */
  lemma RecvTagClass()
    ensures Contains(RecvMsgTag, RecvMsgTag) && !Contains(RecvMsgTag, PublTag) && !Contains(RecvMsgTag, SyncIntTag)
  {
    SelfOccurs(RecvMsgTag);
    NoOccurrenceOfDifferentTag(RecvMsgTag, PublTag);
    NoLongerOccurrence(RecvMsgTag, SyncIntTag);
  }

  lemma TagsAvoidColon()
    ensures Avoids(PublTag, ':') && Avoids(RecvMsgTag, ':')
  {
  }

  // ----- records of the harnesses, read back -----

  /** A record with its tag and fields, as `split('::')` returns them. */
  function Read(t: int, e: LogEntry): Record {
    Parse(Row(t, Line(e)))
  }

  /** The chat harness's PUBL_MSG record is a publish of the message text, at its time. */
  lemma ChatPublishRow(t: int, id: string, m: ChatMessage)
    requires Avoids(id, ':') && Avoids(m.node, ':')
    ensures PublishOf(Read(t, SvsChat.PublEntry(id, m)), Text(m))
    ensures !Read(t, SvsChat.PublEntry(id, m)).receive && !Read(t, SvsChat.PublEntry(id, m)).syncInt
    ensures Read(t, SvsChat.PublEntry(id, m)).t == t
  {
    TagsAvoidColon();
    PlainLineFields(SvsChat.PublEntry(id, m));
    PublTagClass();
  }

  /** The chat harness's RECV_MSG record is a receive of the fetched content by node `id`. */
  lemma ChatReceiveRow(t: int, id: string, content: string)
    requires Avoids(id, ':') && Avoids(content, ':')
    ensures ReceiveOf(Read(t, SvsChat.RecvMsgEntry(id, content)), content)
    ensures Read(t, SvsChat.RecvMsgEntry(id, content)).fields[1] == id
    ensures !Read(t, SvsChat.RecvMsgEntry(id, content)).publish && !Read(t, SvsChat.RecvMsgEntry(id, content)).syncInt
  {
    TagsAvoidColon();
    PlainLineFields(SvsChat.RecvMsgEntry(id, content));
    RecvTagClass();
  }

  /** PSync's PUBL_MSG record is a publish of `prefix=i`. */
  lemma PSyncPublishRow(t: int, prefix: string, i: int)
    requires Avoids(prefix, ':')
    ensures PublishOf(Read(t, PSyncEval.PublEntry(prefix, i)), Text(ChatMessage(prefix, i)))
  {
    TagsAvoidColon();
    PlainLineFields(PSyncEval.PublEntry(prefix, i));
    PublTagClass();
  }

  /** PSync's RECV_MSG record is a receive of `prefix=i`, the key its publisher logged. */
  lemma PSyncReceiveRow(t: int, userPrefix: string, prefix: string, i: int)
    requires Avoids(userPrefix, ':') && Avoids(prefix, ':')
    ensures ReceiveOf(Read(t, PSyncEval.RecvMsgEntry(userPrefix, prefix, i)), Text(ChatMessage(prefix, i)))
    ensures Read(t, PSyncEval.RecvMsgEntry(userPrefix, prefix, i)).fields[1] == userPrefix
  {
    TagsAvoidColon();
    PlainLineFields(PSyncEval.RecvMsgEntry(userPrefix, prefix, i));
    RecvTagClass();
  }

  /**
   * syncps's PUBL_MSG record is `PUBL_MSG::prefix::prefix::i`: its third
   * field is the prefix, so every publish of a node overwrites the same
   * PUBLISHES entry.
   */
  lemma SyncpsPublishRow(t: int, m: SyncpsEval.Message)
    requires Avoids(m.prefix, ':')
    ensures PublishOf(Read(t, SyncpsEval.PublEntry(m)), m.prefix)
  {
    TagsAvoidColon();
    PlainLineFields(SyncpsEval.PublEntry(m));
    PublTagClass();
  }

  // ----- one message, end to end -----

  /** PUBLISHES and RECIEVES after one publish of `key` at `t1` and its receive by `y` at `t2`. */
  function OneDelivery(key: string, y: string, t1: int, t2: int): Tables {
    Tables(map[key := t1], map[key := Received([y], [t2])], [key])
  }

  /** A publish record of `key` at `t1`, then a receive record of `key` by `y` at `t2`. */
  lemma AbsorbPublishThenReceive(pub: Record, recv: Record, key: string, y: string)
    requires PublishOf(pub, key) && !pub.receive
    requires ReceiveOf(recv, key) && !recv.publish && recv.fields[1] == y
    ensures AbsorbAll(Empty, [pub, recv]) == Ok(OneDelivery(key, y, pub.t, recv.t))
  {
    var tb1 := Tables(map[key := pub.t], map[], []);
    assert Empty.publishes[key := pub.t] == map[key := pub.t];
    assert AbsorbAll(Empty, [pub]) == Ok(tb1) by {
      assert [pub][..0] == [];
      assert Absorb(Empty, pub) == Ok(tb1);
    }
    assert Absorb(tb1, recv) == Ok(AddReceive(tb1, key, y, recv.t));
    assert tb1.receives[key := Received([y], [recv.t])] == map[key := Received([y], [recv.t])];
    assert AddReceive(tb1, key, y, recv.t) == OneDelivery(key, y, pub.t, recv.t);
    var rs := [pub, recv];
    assert rs[..1] == [pub] && rs[1] == recv;
    assert AbsorbAll(Empty, rs) == Absorb(tb1, recv);
  }

  lemma NoSyncInts(a: Record, b: Record)
    requires !a.syncInt && !b.syncInt
    ensures LogRows.SyncIntCount([a, b]) == 0
  {
    var rs := [a, b];
    assert rs[..1] == [a] && rs[1] == b;
    assert [a][..0] == [];
    assert LogRows.SyncIntCount([a]) == 0;
  }

  /** The timing pass over one received message with one receive. */
  lemma CollectSingle(key: string, x: string, t1: int, t2: int, y: string)
    requires Publisher(key) == Some(x)
    ensures Analyze.Collect(OneDelivery(key, y, t1, t2), [key])
      == Ok(Analyze.Timings([t2 - t1], [x]))
  {
    assert [key][..0] == [];
    assert Deltas([t2], t1) == [t2 - t1] by {
      assert [t2][..0] == [];
    }
  }

  /** The per-run figures of one delivery: no sync interest, one receive, one publish. */
  lemma FiguresSingle(key: string, y: string, t1: int, t2: int)
    ensures Wellformed(OneDelivery(key, y, t1, t2))
    ensures Analyze.Figures(Analyze.Ingested(OneDelivery(key, y, t1, t2), 0)) == Ok(Analyze.RunFigures(0, 1, 1))
  {
    var tb := OneDelivery(key, y, t1, t2);
    assert tb.order[..|tb.order| - 1] == [];
    assert TotalOver(tb.receives, tb.order) == TotalOver(tb.receives, []) + |tb.receives[key].times|;
    assert |tb.publishes| == 1 by {
      assert tb.publishes.Keys == {key};
    }
  }

  lemma RecordsOfTwo(r1: Row, r2: Row, path1: string, path2: string)
    ensures Records([LogFile(path1, [r1]), LogFile(path2, [r2])]) == [Parse(r1), Parse(r2)]
  {
    var files := [LogFile(path1, [r1]), LogFile(path2, [r2])];
    assert files[..1] == [files[0]];
    assert [files[0]][..0] == [];
    assert Records([files[0]]) == [] + ParseAll([r1]);
    assert Records(files) == Records([files[0]]) + ParseAll([r2]);
    assert ParseAll([r1]) == [Parse(r1)] by {
      assert [r1][..0] == [];
    }
    assert ParseAll([r2]) == [Parse(r2)] by {
      assert [r2][..0] == [];
    }
  }

  /** Node `x` publishes chat message `k` at `t1`; the node with identity `y` receives it at `t2`. */
  function ChatRun(x: string, y: string, k: int, t1: int, t2: int): seq<LogFile> {
    var m := ChatMessage(SvsIdentity(x), k);
    [LogFile(x + ".log", [Row(t1, Line(SvsChat.PublEntry(SvsIdentity(x), m)))]),
     LogFile(y + ".log", [Row(t2, Line(SvsChat.RecvMsgEntry(y, Text(m))))])]
  }

  lemma IdentityAvoidsColon(x: string)
    requires Avoids(x, ':')
    ensures Avoids(SvsIdentity(x), ':')
  {
    AppendAvoids("/ndn/", x, ':');
    AppendAvoids("/ndn/" + x, "-site/", ':');
    AppendAvoids("/ndn/" + x + "-site/", x, ':');
    AppendAvoids("/ndn/" + x + "-site/" + x, "/svs_chat/", ':');
    AppendAvoids("/ndn/" + x + "-site/" + x + "/svs_chat/", x, ':');
  }

  /**
   * One chat message, end to end: the two log lines are read as one
   * publish and one receive, the timing pass attributes the message
   * to `x` with the delay `t2 - t1`, and the run's figures are one
   * publish, one receive and no sync interest.
   */
  lemma ChatDelivery(x: string, y: string, k: int, t1: int, t2: int)
    requires Avoids(x, '/') && Avoids(x, ':') && Avoids(y, ':')
    ensures Analyze.Ingest(ChatRun(x, y, k, t1, t2)) == Ok(Analyze.Ingested(OneDelivery(Text(ChatMessage(SvsIdentity(x), k)), y, t1, t2), 0))
    ensures Analyze.Collect(OneDelivery(Text(ChatMessage(SvsIdentity(x), k)), y, t1, t2), [Text(ChatMessage(SvsIdentity(x), k))])
      == Ok(Analyze.Timings([t2 - t1], [x]))
    ensures Wellformed(OneDelivery(Text(ChatMessage(SvsIdentity(x), k)), y, t1, t2))
    ensures Analyze.Figures(Analyze.Ingested(OneDelivery(Text(ChatMessage(SvsIdentity(x), k)), y, t1, t2), 0))
      == Ok(Analyze.RunFigures(0, 1, 1))
  {
    var id := SvsIdentity(x);
    var m := ChatMessage(id, k);
    var key := Text(m);
    var pubRow := Row(t1, Line(SvsChat.PublEntry(id, m)));
    var recvRow := Row(t2, Line(SvsChat.RecvMsgEntry(y, key)));
    IdentityAvoidsColon(x);
    ChatAvoidsColon(m);
    ChatPublishRow(t1, id, m);
    ChatReceiveRow(t2, y, key);
    RecordsOfTwo(pubRow, recvRow, x + ".log", y + ".log");
    AbsorbPublishThenReceive(Parse(pubRow), Parse(recvRow), key, y);
    NoSyncInts(Parse(pubRow), Parse(recvRow));
    IdentityPublisher(x, k);
    CollectSingle(key, x, t1, t2, y);
    FiguresSingle(key, y, t1, t2);
  }
}
