/**
 * Client-id discovery in `Connection::setup`: the reply to the daemon's
 * `HISTORY GET CLIENT_ID` query is split on CRLF, its first line is split on
 * `-`, and the second field is parsed as a `u64`. When any step fails the
 * connection keeps the id it already had, which is 0 for a fresh connection.
 */
module ClientId {
  import opened Wrappers
  import opened MachineInts
  import opened TextSplit
  import opened U64Parse

  const CRLF: string := "\r\n"
  const HYPHEN: string := "-"

  /**
   * The id the reply carries, if it carries one: the second hyphen-separated
   * field of the reply's first CRLF-separated line, parsed as a `u64`. No
   * reply, or a first line without a hyphen, carries none.
   */
  function ParseClientId(reply: Option<string>): (r: Option<U64>)
    ensures reply.None? ==> r.None?
    ensures r.Some? ==> !Free(Split(reply.value, CRLF)[0], HYPHEN)
  {
    match reply
    case None => None
    case Some(text) =>
      match Get(Split(text, CRLF), 0)
      case None => None
      case Some(line) =>
        NoSecondField(line);
        match Get(Split(line, HYPHEN), 1)
        case None => None
        case Some(field) => ParseU64(field)
  }

  /** The connection's id after `setup`, starting from `current`. */
  function SetupClientId(current: U64, reply: Option<string>): (id: U64)
    ensures ParseClientId(reply).Some? ==> id == ParseClientId(reply).value
    ensures ParseClientId(reply).None? ==> id == current
  {
    match ParseClientId(reply)
    case Some(v) => v
    case None => current
  }

  /** The id a freshly opened connection ends up with: `Connection(handle, 0)` then `setup`. */
  function ResolveClientId(reply: Option<string>): (id: U64)
    ensures reply.None? ==> id == 0
    ensures ParseClientId(reply).None? ==> id == 0
  {
    SetupClientId(0, reply)
  }

  /** `line` is the first CRLF-separated line of `line + CRLF + rest`. */
  lemma FirstLineSplit(line: string, rest: string)
    requires Free(line, CRLF)
    ensures Split(line + CRLF + rest, CRLF)[0] == line
  {
    var s := line + CRLF + rest;
    var k := |line|;
    assert s[k..k + 2] == CRLF;
    forall j: nat | j < k ensures !OccursAt(s, CRLF, j) {
      if j + 2 <= k {
        assert s[j..j + 2] == line[j..j + 2];
        assert !OccursAt(line, CRLF, j);
      } else {
        assert s[j + 1] == '\r';
      }
    }
    FindFirst(s, CRLF, k);
    SplitFirst(s, CRLF);
    assert s[..k] == line;
  }

  /** In `f` or `f-…`, with `f` free of hyphens, the first field is `f`. */
  lemma FirstField(f: string, b: string)
    requires Free(f, HYPHEN)
    requires b == [] || b[0] == '-'
    ensures Split(f + b, HYPHEN)[0] == f
  {
    if b == [] {
      assert f + b == f;
      SplitFree(f, HYPHEN);
    } else {
      assert b == HYPHEN + b[1..];
      assert f + b == f + HYPHEN + b[1..];
      FindAfterFree(f, HYPHEN, b[1..]);
    }
  }

  /** In `a-f` or `a-f-…`, with `a` and `f` free of hyphens, the second field is `f`. */
  lemma SecondField(a: string, f: string, b: string)
    requires Free(a, HYPHEN) && Free(f, HYPHEN)
    requires b == [] || b[0] == '-'
    ensures Get(Split(a + HYPHEN + f + b, HYPHEN), 1) == Some(f)
  {
    var tail := f + b;
    assert a + HYPHEN + f + b == a + HYPHEN + tail;
    FindAfterFree(a, HYPHEN, tail);
    FirstField(f, b);
  }

  /** A line without any hyphen has no second field. */
  lemma NoSecondField(line: string)
    ensures Free(line, HYPHEN) ==> Get(Split(line, HYPHEN), 1) == None
  {
    if Free(line, HYPHEN) {
      SplitFree(line, HYPHEN);
    }
  }

  /** Only the first line of the reply is ever examined. */
  lemma OnlyFirstLine(line: string, rest: string)
    requires Free(line, CRLF)
    ensures ParseClientId(Some(line + CRLF + rest)) == ParseClientId(Some(line))
  {
    FirstLineSplit(line, rest);
    SplitFree(line, CRLF);
  }

  /**
   * A first line `a-f…` whose second field `f` parses as a `u64` sets the id to
   * that value; when `f` does not parse (empty, non-numeric, overflowing) the
   * id stays where it was.
   */
  lemma ClientIdFromField(line: string, rest: string, a: string, f: string, b: string, current: U64)
    requires Free(line, CRLF)
    requires line == a + HYPHEN + f + b
    requires Free(a, HYPHEN) && Free(f, HYPHEN) && (b == [] || b[0] == '-')
    ensures ParseClientId(Some(line + CRLF + rest)) == ParseU64(f)
    ensures SetupClientId(current, Some(line + CRLF + rest))
      == match ParseU64(f) case Some(v) => v case None => current
  {
    OnlyFirstLine(line, rest);
    SplitFree(line, CRLF);
    SecondField(a, f, b);
  }

  /** A first line with fewer than two hyphen-separated fields leaves the id as it was. */
  lemma ClientIdWithoutField(line: string, rest: string, current: U64)
    requires Free(line, CRLF) && Free(line, HYPHEN)
    ensures ParseClientId(Some(line + CRLF + rest)) == None
    ensures SetupClientId(current, Some(line + CRLF + rest)) == current
  {
    OnlyFirstLine(line, rest);
    SplitFree(line, CRLF);
    NoSecondField(line);
  }

  /** `t1-42` answered to a fresh connection gives it id 42. */
  lemma ResolveExample()
    ensures ResolveClientId(Some("t1-42\r\n")) == 42
  {
    assert "t1-42\r\n" == "t1-42" + CRLF + "";
    assert "t1-42" == "t1" + HYPHEN + "42" + "";
    FreeOfLead("t1-42", CRLF);
    FreeOfLead("t1", HYPHEN);
    FreeOfLead("42", HYPHEN);
    ClientIdFromField("t1-42", "", "t1", "42", "", 0);
    ParseFortyTwo();
  }

  /** The field `42` parses as 42. */
  lemma ParseFortyTwo()
    ensures ParseU64("42") == Some(42)
  {
    ParseFormat(42);
    assert Format(42) == "42";
  }

  /** A reply line without a hyphen leaves a fresh connection at id 0. */
  lemma ResolveMalformedExample()
    ensures ResolveClientId(Some("t1\r\n")) == 0
  {
    assert "t1\r\n" == "t1" + CRLF + "";
    FreeOfLead("t1", CRLF);
    FreeOfLead("t1", HYPHEN);
    ClientIdWithoutField("t1", "", 0);
  }
}
