/** The RPC server's way from a received request to a reply header; payloads are not modelled. */
module RpcServer {

  datatype Option<T> = None | Some(value: T)

  datatype Status = SUCCESS | BAD_RESOLVER_LOOKUP | BAD_CALLSET_UNPACK | BAD_HANDLER_LOOKUP | HANDLER_ERROR

  datatype Header = Header(seqn: nat, noReply: bool, callsetQuery: bool, whichCallset: nat)

  datatype ReplyHeader = ReplyHeader(seqn: nat, whichCallset: nat, status: Status)

  /**
   What unpacking, the resolver and the handler make of the bytes of one request, and
   whether the reply header fits the reply buffer.
   */
  datatype Attempt = Attempt(header: Option<Header>, callsetUnpacks: bool, handlerFound: bool, handlerStatus: Status,
                             headerFits: bool)

  /** What goes out: nothing, a reply with its header, or what was packed of a reply whose header did not fit. */
  datatype Output = Nothing | Whole(header: ReplyHeader) | Torn

  /** A registered callset; its resolver may be NULL. */
  datatype Entry = Entry(id: nat, hasResolver: bool)

  /** The first entry with this id has a resolver. */
  predicate Resolves(which: nat, callsets: seq<Entry>) {
    exists i :: 0 <= i < |callsets| && IsFirst(which, callsets, i) && callsets[i].hasResolver
  }

  predicate IsFirst(which: nat, callsets: seq<Entry>, i: nat)
    requires i < |callsets|
  {
    callsets[i].id == which && forall j :: 0 <= j < i ==> callsets[j].id != which
  }

  /** The first entry decides if it has the id, and the others do if not. */
  lemma ResolvesFirst(which: nat, e: Entry, rest: seq<Entry>)
    ensures !Resolves(which, [])
    ensures Resolves(which, [e] + rest) <==> if e.id == which then e.hasResolver else Resolves(which, rest)
  {
    var all := [e] + rest;
    if e.id == which {
      assert IsFirst(which, all, 0);
    } else {
      if i :| 0 <= i < |all| && IsFirst(which, all, i) && all[i].hasResolver {
        assert forall j :: 0 <= j < i - 1 ==> rest[j] == all[j + 1];
        assert IsFirst(which, rest, i - 1);
      }
      if i :| 0 <= i < |rest| && IsFirst(which, rest, i) && rest[i].hasResolver {
        assert IsFirst(which, all, i + 1);
      }
    }
  }

  /** `callset_lookup`, whose result is NULL or not. */
  method CallsetLookup(which: nat, callsets: seq<Entry>) returns (found: bool)
    ensures found <==> Resolves(which, callsets)
    ensures found <==>
              exists i :: 0 <= i < |callsets| && callsets[i].id == which && callsets[i].hasResolver
                          && forall j :: 0 <= j < i ==> callsets[j].id != which
  {
    for i := 0 to |callsets|
      invariant forall j :: 0 <= j < i ==> callsets[j].id != which
    {
      if callsets[i].id == which {
        assert IsFirst(which, callsets, i);
        return callsets[i].hasResolver;
      }
    }
    return false;
  }

  predicate HandlerReached(callsets: seq<Entry>, a: Attempt) {
    && a.header.Some? && !a.header.value.callsetQuery && Resolves(a.header.value.whichCallset, callsets)
    && a.callsetUnpacks && a.handlerFound
  }

  /** No header arrived, or the handler is reached and its caller wants no reply. */
  predicate Silent(callsets: seq<Entry>, a: Attempt) {
    a.header.None? || (HandlerReached(callsets, a) && a.header.value.noReply)
  }

  function Verdict(callsets: seq<Entry>, a: Attempt): Status
    requires a.header.Some?
  {
    if a.header.value.callsetQuery then SUCCESS
    else if !Resolves(a.header.value.whichCallset, callsets) then BAD_RESOLVER_LOOKUP
    else if !a.callsetUnpacks then BAD_CALLSET_UNPACK
    else if !a.handlerFound then BAD_HANDLER_LOOKUP
    else a.handlerStatus
  }

  /** What the server sends back for a request. Only behind a handler the size of a torn reply is not reset. */
  function Answer(callsets: seq<Entry>, a: Attempt): Output {
    if Silent(callsets, a) then Nothing
    else if a.headerFits then
      Whole(ReplyHeader(a.header.value.seqn, a.header.value.whichCallset, Verdict(callsets, a)))
    else if HandlerReached(callsets, a) then Torn
    else Nothing
  }

  /** On the fields of a request, path by path: when a reply goes out, and what its header holds. */
  lemma AnswerOnFields(callsets: seq<Entry>, h: Header, unpacks: bool, found: bool, status: Status, fits: bool)
    ensures var out := Answer(callsets, Attempt(Some(h), unpacks, found, status, fits));
            var reached := !h.callsetQuery && Resolves(h.whichCallset, callsets) && unpacks && found;
            && (fits && !(reached && h.noReply) ==>
                  out == Whole(ReplyHeader(h.seqn, h.whichCallset,
                                           if h.callsetQuery then SUCCESS
                                           else if !Resolves(h.whichCallset, callsets) then BAD_RESOLVER_LOOKUP
                                           else if !unpacks then BAD_CALLSET_UNPACK
                                           else if !found then BAD_HANDLER_LOOKUP
                                           else status)))
            && (reached && h.noReply ==> out == Nothing)
            && (!fits && !(reached && h.noReply) ==> out == if reached then Torn else Nothing)
    ensures Answer(callsets, Attempt(None, unpacks, found, status, fits)) == Nothing
  {}

  /** `Pb_pack_delimited` on an empty stream: a size, or 0 when the header does not fit. */
  method PackHeader(h: ReplyHeader, fits: bool) returns (out: Output)
    ensures out == if fits then Whole(h) else Nothing
  {
    out := if fits then Whole(h) else Nothing;
  }

  /** Every path that replies, the error paths included, echoes the sequence number. */
  method ProtoRpcExec(callsets: seq<Entry>, a: Attempt) returns (out: Output)
    ensures out == Answer(callsets, a)
    ensures a.header.Some? && a.headerFits && !a.header.value.noReply ==> out.Whole?
    ensures a.header.Some? && a.header.value.noReply ==>
              (out.Whole? <==> a.headerFits && (a.header.value.callsetQuery || !a.callsetUnpacks || !a.handlerFound
                                                || !Resolves(a.header.value.whichCallset, callsets)))
    ensures out.Whole? ==>
              && a.header.Some? && out.header.seqn == a.header.value.seqn
              && out.header.whichCallset == a.header.value.whichCallset
              && out.header.status == (if a.header.value.callsetQuery then SUCCESS
                                       else if !Resolves(a.header.value.whichCallset, callsets) then BAD_RESOLVER_LOOKUP
                                       else if !a.callsetUnpacks then BAD_CALLSET_UNPACK
                                       else if !a.handlerFound then BAD_HANDLER_LOOKUP
                                       else a.handlerStatus)
  {
    var replyHeader := ReplyHeader(0, 0, SUCCESS);
    if a.header.None? {
      return Nothing;
    }
    var header := a.header.value;
    if header.callsetQuery {
      replyHeader := replyHeader.(seqn := header.seqn);
      replyHeader := replyHeader.(whichCallset := header.whichCallset);
      replyHeader := replyHeader.(status := SUCCESS);
      out := PackHeader(replyHeader, a.headerFits);
      return;
    }
    var resolver := CallsetLookup(header.whichCallset, callsets);
    if !resolver {
      replyHeader := replyHeader.(seqn := header.seqn);
      replyHeader := replyHeader.(whichCallset := header.whichCallset);
      replyHeader := replyHeader.(status := BAD_RESOLVER_LOOKUP);
      out := PackHeader(replyHeader, a.headerFits);
      return;
    }
    if !a.callsetUnpacks {
      replyHeader := replyHeader.(seqn := header.seqn);
      replyHeader := replyHeader.(whichCallset := header.whichCallset);
      replyHeader := replyHeader.(status := BAD_CALLSET_UNPACK);
      out := PackHeader(replyHeader, a.headerFits);
      return;
    }
    if !a.handlerFound {
      replyHeader := replyHeader.(seqn := header.seqn);
      replyHeader := replyHeader.(whichCallset := header.whichCallset);
      replyHeader := replyHeader.(status := BAD_HANDLER_LOOKUP);
      out := PackHeader(replyHeader, a.headerFits);
      return;
    }
    replyHeader := replyHeader.(status := a.handlerStatus);
    if header.noReply {
      return Nothing;
    }
    replyHeader := replyHeader.(seqn := header.seqn);
    replyHeader := replyHeader.(whichCallset := header.whichCallset);
    out := PackHeader(replyHeader, a.headerFits);
    if out.Nothing? {
      // The size is taken from the stream, not from the return value of packing.
      return Torn;
    }
  }
}
