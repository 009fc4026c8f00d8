/** The Jupyter message envelope as the playback engine handles it, the
    reply-content rewrite (`GetContent`) and the construction of one reply
    from a recorded message and a live request. */
module Messages {
  import opened Wrappers

  type Bytes = seq<bv8>

  /** Free-form JSON dictionaries (content data, metadata) are carried opaquely. */
  type Data = map<string, string>

  datatype Header = Header(
    messageType: string,
    messageId: string,
    version: string,
    session: string,
    username: string,
    date: string)

  /** The closed set of content kinds the rewrite distinguishes. A comm id is
      a nullable string, hence an `Option`. */
  datatype Content =
    | CommOpen(commId: Option<string>, targetName: string, data: Data)
    | CommMsg(commId: Option<string>, data: Data)
    | CommClose(commId: Option<string>, data: Data)
    | Other(messageType: string, body: Data)

  datatype Message = Message(
    header: Header,
    content: Content,
    parentHeader: Option<Header>,
    signature: string,
    metaData: Data,
    identifiers: seq<Bytes>,
    buffers: seq<Bytes>,
    channel: string)

  /** The grouping key `(ParentHeader?.MessageId, ParentHeader?.MessageType)`:
      both components are null when the message has no parent header. */
  datatype Key = Key(msgId: Option<string>, msgType: Option<string>)

  function KeyOf(m: Message): (k: Key)
    ensures k.msgType.Some? <==> m.parentHeader.Some?
    ensures m.parentHeader.Some? ==>
              k == Key(Some(m.parentHeader.value.messageId), Some(m.parentHeader.value.messageType))
  {
    match m.parentHeader
    case None => Key(None, None)
    case Some(p) => Key(Some(p.messageId), Some(p.messageType))
  }

  /** The comm id a live request carries: only `comm_open` and `comm_msg` carry one. */
  function RequestCommId(request: Content): Option<string>
  {
    match request
    case CommOpen(id, _, _) => id
    case CommMsg(id, _) => id
    case _ => None
  }

  /** Recorded content kinds whose comm id is re-stamped. */
  predicate Rewritable(recorded: Content)
  {
    recorded.CommMsg? || recorded.CommClose?
  }

  function CommIdOf(c: Content): Option<string>
  {
    if c.Other? then None else c.commId
  }

  function DataOf(c: Content): Data
  {
    if c.Other? then c.body else c.data
  }

  predicate SameKind(a: Content, b: Content)
  {
    && (a.CommOpen? <==> b.CommOpen?)
    && (a.CommMsg? <==> b.CommMsg?)
    && (a.CommClose? <==> b.CommClose?)
    && (a.Other? <==> b.Other?)
  }

  /** `GetContent`: the content of the reply built from recorded content
      `recorded` in answer to a live request whose content is `request`. */
  function RewriteContent(request: Content, recorded: Content): (r: Content)
    // the reply keeps the recorded kind and payload
    ensures SameKind(r, recorded)
    ensures DataOf(r) == DataOf(recorded)
    // a comm id of the live request replaces the recorded one on comm_msg / comm_close
    ensures RequestCommId(request).Some? && Rewritable(recorded) ==>
              CommIdOf(r) == RequestCommId(request)
    // in every other case the recorded content is returned as it is
    ensures RequestCommId(request).None? || !Rewritable(recorded) ==> r == recorded
  {
    match RequestCommId(request)
    case None => recorded
    case Some(id) =>
      match recorded
      case CommClose(_, data) => CommClose(Some(id), data)
      case CommMsg(_, data) => CommMsg(Some(id), data)
      case _ => recorded
  }

  /** The rewrite leaves the recorded content alone exactly when there is no
      live comm id to carry over, the recorded kind is not rewritten, or it
      already names the live comm. */
  lemma RewriteIsIdentityIff(request: Content, recorded: Content)
    ensures RewriteContent(request, recorded) == recorded <==>
              || RequestCommId(request).None?
              || !Rewritable(recorded)
              || CommIdOf(recorded) == RequestCommId(request)
  {
  }

  /** Rewriting an already rewritten content changes nothing. */
  lemma RewriteIdempotent(request: Content, recorded: Content)
    ensures RewriteContent(request, RewriteContent(request, recorded))
            == RewriteContent(request, recorded)
  {
  }

  /** The reply to live request `request` rebuilt from the recorded message
      `recorded`. */
  function Reply(request: Message, recorded: Message): Message
    requires recorded.parentHeader.Some?
  {
    var parent := recorded.parentHeader.value;
    Message(
      recorded.header,
      RewriteContent(request.content, recorded.content),
      Some(Header(parent.messageType, request.header.messageId, parent.version,
                  parent.session, parent.username, parent.date)),
      recorded.signature, recorded.metaData, recorded.identifiers, recorded.buffers,
      recorded.channel)
  }

  /** Only the parent header's id and, for comm traffic, the content's comm id
      differ between a reply and the recorded message it is built from. */
  lemma ReplyRestampsParent(request: Message, recorded: Message)
    requires recorded.parentHeader.Some?
    ensures var r := Reply(request, recorded);
      // the reply answers the live request ...
      && r.parentHeader.Some? && r.parentHeader.value.messageId == request.header.messageId
      // ... and its parent header is otherwise the recorded one
      && r.parentHeader.value.(messageId := recorded.parentHeader.value.messageId)
         == recorded.parentHeader.value
      // header, signature, metadata, identifiers, buffers and channel are copied
      && r.(content := recorded.content, parentHeader := recorded.parentHeader) == recorded
      && r.content == RewriteContent(request.content, recorded.content)
  {
  }
}
