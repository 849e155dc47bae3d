/**
 * Choosing the body text of a fetched message. The MIME parsing and the
 * charset decoding belong to Python's `email` package; here a part is what
 * the program asks of it: its content type, its `Content-Disposition` header
 * as `str()` renders it ("None" when absent), and the decoded text, or None
 * when `get_payload(decode=True).decode(charset, errors="replace")` raises.
 */
module MimeBody {
  import opened Wrappers
  import opened Text

  datatype Part = Part(contentType: string, disposition: string, decoded: Option<string>)

  /** A message as `msg.walk()` and `msg.is_multipart()` show it. */
  datatype Message =
    | Multipart(walk: seq<Part>)
    | Singlepart(payload: Option<string>)

  /** A part the body may come from: `text/plain`, not an attachment, and decodable. */
  predicate Usable(p: Part) {
    p.contentType == "text/plain" && !Contains(p.disposition, "attachment") && p.decoded.Some?
  }

  /** The index of the first usable part. */
  function FirstUsable(parts: seq<Part>): (r: Option<nat>)
    ensures r.Some? ==> r.value < |parts| && Usable(parts[r.value])
                        && forall k :: 0 <= k < r.value ==> !Usable(parts[k])
    ensures r.None? ==> forall k :: 0 <= k < |parts| ==> !Usable(parts[k])
  {
    if parts == [] then None
    else if Usable(parts[0]) then Some(0)
    else match FirstUsable(parts[1..])
      case None => None
      case Some(i) => Some(i + 1)
  }

  /**
   * The body text: the first usable part, the whole payload, or "" when there
   * is none. A non-empty body of a multipart message is the text of one of
   * its usable parts; an attachment or a non-plain part never supplies it.
   */
  function Body(m: Message): (r: string)
    ensures m.Multipart? && r != "" ==>
              exists k :: 0 <= k < |m.walk| && Usable(m.walk[k]) && m.walk[k].decoded == Some(r)
  {
    match m
    case Singlepart(payload) => if payload.Some? then payload.value else ""
    case Multipart(parts) =>
      match FirstUsable(parts)
      case None => ""
      case Some(i) => parts[i].decoded.value
  }

  /** The walk over the parts, with its `break` on the first part that decodes and its `continue` past the rest. */
  method SelectBody(m: Message) returns (body: string)
    ensures body == Body(m)
  {
    body := "";
    match m {
      case Singlepart(payload) =>
        if payload.Some? {
          body := payload.value;
        }
      case Multipart(parts) =>
        var i := 0;
        while i < |parts|
          invariant 0 <= i <= |parts|
          invariant forall k :: 0 <= k < i ==> !Usable(parts[k])
          invariant body == ""
        {
          var part := parts[i];
          if part.contentType == "text/plain" && !Contains(part.disposition, "attachment") {
            if part.decoded.Some? {
              body := part.decoded.value;
              break;
            }
          }
          i := i + 1;
        }
    }
  }

  /**
   * Parts after the first usable one are ignored; and without a usable part
   * a multipart body is empty.
   */
  lemma {:induction false} LaterPartsIgnored(parts: seq<Part>, more: seq<Part>)
    ensures FirstUsable(parts).Some? ==> Body(Multipart(parts + more)) == Body(Multipart(parts))
    ensures FirstUsable(parts).None? ==> Body(Multipart(parts + more)) == Body(Multipart(more))
  {
    var all := parts + more;
    var f := FirstUsable(parts);
    if f.Some? {
      assert all[f.value] == parts[f.value];
      assert forall k :: 0 <= k < f.value ==> all[k] == parts[k];
      assert FirstUsable(all) == f;
    } else {
      var g := FirstUsable(more);
      assert forall k :: 0 <= k < |parts| ==> all[k] == parts[k];
      assert forall k :: 0 <= k < |more| ==> all[|parts| + k] == more[k];
      if g.Some? {
        assert FirstUsable(all) == Some(|parts| + g.value);
      } else {
        assert FirstUsable(all).None?;
      }
    }
  }

  /** A part carrying an attachment disposition is never the body, even if it is the only text part. */
  lemma AttachmentNeverBody(p: Part)
    requires Contains(p.disposition, "attachment")
    ensures Body(Multipart([p])) == ""
  {
    assert !Usable(p);
  }
}
