/**
 * The log records the harnesses write (`BOOST_LOG_TRIVIAL(info) << TAG <<
 * "::" << ...`) and the analysis scripts read back with `split('::')`.
 *
 * A record is kept structured (`LogEntry`) and rendered by `Line`, which
 * writes the tag and the fields separated by `::`, as the stream insertions
 * do.
 */
module LogFormat {
  import opened Strings

  const Sep := "::"
  const NodeInitTag := "NODE_INIT"
  const PublTag := "PUBL_MSG"
  const RecvStateTag := "RECV_STATE"
  const RecvMsgTag := "RECV_MSG"
  const SyncIntTag := "SEND_SYNC_INT"

  /** A chat message `node=number`, as the SVS chat and PSync harnesses build it. */
  datatype ChatMessage = ChatMessage(node: string, number: int)

  function Text(m: ChatMessage): string {
    m.node + "=" + IntToString(m.number)
  }

  /** One value inserted into a log record. */
  datatype Field = Str(s: string) | Num(n: int) | Chat(m: ChatMessage)

  function Render(f: Field): string {
    match f
    case Str(s) => s
    case Num(n) => IntToString(n)
    case Chat(m) => Text(m)
  }

  function RenderAll(fs: seq<Field>): (r: seq<string>)
    ensures |r| == |fs| && forall k :: 0 <= k < |fs| ==> r[k] == Render(fs[k])
    decreases |fs|
  {
    if |fs| == 0 then [] else [Render(fs[0])] + RenderAll(fs[1..])
  }

  datatype LogEntry = LogEntry(tag: string, fields: seq<Field>)

  /** The text of one record: the tag, then each field, separated by `::`. */
  function Line(e: LogEntry): string {
    Join([e.tag] + RenderAll(e.fields), Sep)
  }

  /** A number never renders with a colon. */
  lemma NumAvoidsColon(n: int)
    ensures Avoids(IntToString(n), ':')
  {
  }

  /** A chat message renders without a colon when its node name has none. */
  lemma ChatAvoidsColon(m: ChatMessage)
    requires Avoids(m.node, ':')
    ensures Avoids(Text(m), ':')
  {
    NumAvoidsColon(m.number);
    var t := Text(m);
    forall k | 0 <= k < |t|
      ensures t[k] != ':'
    {
      if k < |m.node| {
        assert t[k] == m.node[k];
      } else if k > |m.node| {
        assert t[k] == IntToString(m.number)[k - |m.node| - 1];
      }
    }
  }

  /**
   * `split('::')` gives back the tag and the rendered fields when none of them
   * contains a colon.
   */
  lemma LineFields(e: LogEntry)
    requires Avoids(e.tag, ':')
    requires forall k :: 0 <= k < |e.fields| ==> Avoids(Render(e.fields[k]), ':')
    ensures Split(Line(e), Sep) == [e.tag] + RenderAll(e.fields)
  {
    var parts := [e.tag] + RenderAll(e.fields);
    forall k | 0 <= k < |parts|
      ensures Avoids(parts[k], Sep[0])
    {
      if k > 0 {
        assert parts[k] == Render(e.fields[k - 1]);
      }
    }
    SplitJoin(parts, Sep);
  }

  /** A field with no colon in its rendering. */
  predicate Plain(f: Field) {
    match f
    case Str(s) => Avoids(s, ':')
    case Num(_) => true
    case Chat(m) => Avoids(m.node, ':')
  }

  lemma PlainAvoidsColon(f: Field)
    requires Plain(f)
    ensures Avoids(Render(f), ':')
  {
    match f
    case Str(_) =>
    case Num(n) => NumAvoidsColon(n);
    case Chat(m) => ChatAvoidsColon(m);
  }

  /** `LineFields` for fields that are each `Plain`. */
  lemma PlainLineFields(e: LogEntry)
    requires Avoids(e.tag, ':')
    requires forall k :: 0 <= k < |e.fields| ==> Plain(e.fields[k])
    ensures Split(Line(e), Sep) == [e.tag] + RenderAll(e.fields)
  {
    forall k | 0 <= k < |e.fields|
      ensures Avoids(Render(e.fields[k]), ':')
    {
      PlainAvoidsColon(e.fields[k]);
    }
    LineFields(e);
  }
}
