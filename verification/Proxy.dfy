/** cmd/wirecompress/proxy.go: naming the command a recorded message carries. */
module Proxy {
  import opened Common
  import opened Wire

  const OP_QUERY := 2004

  /** The first byte 0 of s, or -1. */
  function IndexZero(s: seq<byte>): (i: int)
    ensures -1 <= i < |s|
    ensures i >= 0 ==> s[i] == 0
    ensures forall j :: 0 <= j < (if i < 0 then |s| else i) ==> s[j] != 0
  {
    if s == [] then -1
    else if s[0] == 0 then 0
    else
      var i := IndexZero(s[1..]);
      if i < 0 then -1 else i + 1
  }

  function FirstKey(doc: seq<byte>): seq<byte> {
    if |doc| < 6 then []
    else
      var elements := doc[5..];
      var end := IndexZero(elements);
      if end < 0 then [] else elements[..end]
  }

  /** The first key among the sections: of the first section of kind 0, [] if the bytes run out before it. */
  function Scan(sections: seq<byte>): seq<byte> {
    if |sections| < 5 then []
    else
      var rest := sections[1..];
      var size := U32(rest[..4]);
      if size > |rest| then []
      else if sections[0] == 0 then FirstKey(rest[..size])
      else Scan(rest[size..])
  }

  /** The sections of an OP_MSG body, without the checksum its flag announces. */
  function SectionsOf(body: seq<byte>): seq<byte>
    requires |body| >= 4
  {
    var sections := body[4..];
    if U32(body[..4]) % 2 != 0 && |sections| >= 4 then sections[..|sections| - 4] else sections
  }

  function Query(body: seq<byte>): seq<byte>
    requires |body| >= 4
  {
    var rest := body[4..];
    var end := IndexZero(rest);
    if end < 0 || |rest| < end + 1 + 8 then [] else FirstKey(rest[end + 1 + 8..])
  }

  function Command(opcode: int, body: seq<byte>): seq<byte> {
    if |body| < 4 then []
    else if opcode == OP_MSG then Scan(SectionsOf(body))
    else if opcode == OP_QUERY then Query(body)
    else []
  }

  /** Ends on every input, even a section that claims size 0: its kind byte is consumed. */
  method CommandName(opcode: int, body: seq<byte>) returns (name: seq<byte>)
    ensures name == Command(opcode, body)
  {
    if opcode == OP_MSG {
      if |body| < 4 { return []; }
      var flags := U32(body[..4]);
      var sections := body[4..];
      if flags % 2 != 0 && |sections| >= 4 {
        sections := sections[..|sections| - 4];
      }
      while |sections| > 0
        invariant Scan(sections) == Command(opcode, body)
        decreases |sections|
      {
        var kind := sections[0];
        ghost var whole := sections;
        sections := sections[1..];
        if |sections| < 4 { return []; }
        var size := U32(sections[..4]);
        if size > |sections| { return []; }
        if kind == 0 { return FirstKey(sections[..size]); }
        sections := sections[size..];
        assert Scan(whole) == Scan(sections);
      }
      return [];
    } else if opcode == OP_QUERY {
      if |body| < 4 { return []; }
      var rest := body[4..];
      var end := IndexZero(rest);
      if end < 0 || |rest| < end + 1 + 8 { return []; }
      return FirstKey(rest[end + 1 + 8..]);
    }
    return [];
  }

  // ---------------------------------------------------------------- what the names mean

  /** Bytes behind their own length, as a BSON document or a document sequence is. */
  function Sized(content: seq<byte>): (r: seq<byte>)
    ensures |r| == 4 + |content|
  {
    Le32(4 + |content|) + content
  }

  /** The content follows the section's own length. */
  datatype Section = Section(kind: byte, content: seq<byte>)

  function Encode(sections: seq<Section>): seq<byte> {
    if sections == [] then []
    else [sections[0].kind] + Sized(sections[0].content) + Encode(sections[1..])
  }

  ghost predicate WellSized(sections: seq<Section>) {
    forall i :: 0 <= i < |sections| ==> 4 + |sections[i].content| < TWO_32
  }

  lemma IndexZeroAt(key: seq<byte>, rest: seq<byte>)
    requires 0 !in key
    ensures IndexZero(key + [0] + rest) == |key|
  {
    var s := key + [0] + rest;
    assert s[|key|] == 0;
    assert forall j :: 0 <= j < |key| ==> s[j] == key[j];
    assert forall j :: 0 <= j < |key| ==> s[j] != 0;
  }

  /** The first key of a document whose first element has this type, key and value. */
  lemma FirstKeyOfDocument(kind: byte, key: seq<byte>, rest: seq<byte>)
    requires 0 !in key
    ensures FirstKey(Sized([kind] + key + [0] + rest)) == key
  {
    var doc := Sized([kind] + key + [0] + rest);
    assert doc[5..] == key + [0] + rest;
    IndexZeroAt(key, rest);
  }

  lemma SizeReads(sized: seq<byte>, content: seq<byte>)
    requires 4 + |content| < TWO_32 && Le32(4 + |content|) <= sized
    ensures U32(sized[..4]) == 4 + |content|
  {
    assert sized[..4] == Le32(4 + |content|);
    Le32Reads(4 + |content|);
  }

  lemma FirstSection(section: Section, more: seq<byte>)
    requires 4 + |section.content| < TWO_32
    ensures var bytes := [section.kind] + Sized(section.content) + more;
            Scan(bytes) == if section.kind == 0 then FirstKey(Sized(section.content)) else Scan(more)
  {
    var sized := Sized(section.content);
    var bytes := [section.kind] + sized + more;
    var rest := bytes[1..];
    assert rest == sized + more;
    SizeReads(rest, section.content);
    assert rest[..|sized|] == sized && rest[|sized|..] == more;
  }

  /** A section cut short has no name. */
  lemma CutSection(kind: byte, content: seq<byte>, cut: nat)
    requires 4 + |content| < TWO_32 && cut < 1 + 4 + |content|
    ensures Scan(([kind] + Sized(content))[..cut]) == []
  {
    var bytes := ([kind] + Sized(content))[..cut];
    if cut >= 5 {
      assert bytes[1..] == Sized(content)[..cut - 1];
      SizeReads(bytes[1..], content);
    }
  }

  lemma FlagsRead(flags: int, more: seq<byte>)
    requires 0 <= flags < TWO_32
    ensures var body := Le32(flags) + more; U32(body[..4]) == flags && body[4..] == more
  {
    assert (Le32(flags) + more)[..4] == Le32(flags);
    Le32Reads(flags);
  }

  /** The checksum a flag announces is taken off. */
  lemma SectionsAreFound(flags: int, sections: seq<byte>, checksum: seq<byte>)
    requires 0 <= flags < TWO_32 && |checksum| == (if flags % 2 != 0 then 4 else 0)
    ensures SectionsOf(Le32(flags) + (sections + checksum)) == sections
  {
    FlagsRead(flags, sections + checksum);
  }

  /** Wherever the kind-0 section stands among document sequences, and whatever follows it, the scan finds its
      first key. */
  lemma {:induction false} ScanFindsTheDocument(sections: seq<Section>, k: nat, more: seq<byte>)
    requires WellSized(sections) && k < |sections|
    requires sections[k].kind == 0 && forall i :: 0 <= i < k ==> sections[i].kind != 0
    ensures Scan(Encode(sections) + more) == FirstKey(Sized(sections[k].content))
  {
    var section, tail := sections[0], sections[1..];
    assert Encode(sections) + more == [section.kind] + Sized(section.content) + (Encode(tail) + more);
    FirstSection(section, Encode(tail) + more);
    if k > 0 { ScanFindsTheDocument(tail, k - 1, more); }
  }

  /** Without a section of kind 0 there is no name. */
  lemma {:induction false} ScanWithoutDocument(sections: seq<Section>)
    requires WellSized(sections) && forall i :: 0 <= i < |sections| ==> sections[i].kind != 0
    ensures Scan(Encode(sections)) == []
  {
    if sections != [] {
      FirstSection(sections[0], Encode(sections[1..]));
      ScanWithoutDocument(sections[1..]);
    }
  }

  /** An OP_MSG body names its command, for every section order, with or without the checksum its flag announces. */
  lemma MessageIsNamed(flags: int, sections: seq<Section>, k: nat, checksum: seq<byte>,
                       kind: byte, key: seq<byte>, rest: seq<byte>)
    requires 0 <= flags < TWO_32 && |checksum| == (if flags % 2 != 0 then 4 else 0)
    requires WellSized(sections) && k < |sections|
    requires sections[k].kind == 0 && forall i :: 0 <= i < k ==> sections[i].kind != 0
    requires 0 !in key && sections[k].content == [kind] + key + [0] + rest
    ensures Command(2013, Le32(flags) + (Encode(sections) + checksum)) == key
  {
    SectionsAreFound(flags, Encode(sections), checksum);
    assert Encode(sections) == Encode(sections) + [];
    ScanFindsTheDocument(sections, k, []);
    FirstKeyOfDocument(kind, key, rest);
  }

  /** An OP_QUERY body: flags, collection name, skip and return counts, document. */
  lemma QueryIsNamed(flags: int, collection: seq<byte>, counts: seq<byte>, kind: byte, key: seq<byte>, rest: seq<byte>)
    requires 0 !in collection && 0 !in key && |counts| == 8
    ensures Command(2004, Le32(flags) + collection + [0] + counts + Sized([kind] + key + [0] + rest)) == key
  {
    var doc := Sized([kind] + key + [0] + rest);
    var body := Le32(flags) + collection + [0] + counts + doc;
    assert body[4..] == collection + [0] + (counts + doc);
    IndexZeroAt(collection, counts + doc);
    assert body[4..][|collection| + 1 + 8..] == doc;
    FirstKeyOfDocument(kind, key, rest);
  }

  /** No other message has a name, nor has one too short for flags, nor a query that ends before its document. */
  lemma NothingElseIsNamed(opcode: int, body: seq<byte>)
    requires |body| < 4 || (opcode != 2013 && opcode != 2004)
             || (opcode == 2004 && forall i :: 4 <= i < |body| - 8 ==> body[i] != 0)
    ensures Command(opcode, body) == []
  {
    if |body| >= 4 && opcode == 2004 {
      var end := IndexZero(body[4..]);
      assert end >= 0 ==> body[4 + end] == 0;
    }
  }

  /** The key of whatever stands where a document should: the bytes from the sixth up to the first zero among
      them, none without such a zero. */
  lemma FirstKeyOfBytes(doc: seq<byte>, end: nat)
    ensures 5 <= end < |doc| && doc[end] == 0 && (forall i :: 5 <= i < end ==> doc[i] != 0) ==>
              FirstKey(doc) == doc[5..end]
    ensures (forall i :: 5 <= i < |doc| ==> doc[i] != 0) ==> FirstKey(doc) == []
  {
    if |doc| >= 6 {
      var at := IndexZero(doc[5..]);
      assert forall j :: 5 <= j < |doc| ==> doc[j] == doc[5..][j - 5];
      if 5 <= end < |doc| && doc[end] == 0 && forall i :: 5 <= i < end ==> doc[i] != 0 {
        assert doc[5..][end - 5] == 0 && at == end - 5;
        assert doc[5..][..at] == doc[5..end];
      }
    }
  }

  // ---------------------------------------------------------------- the commands Wire sends

  lemma OneSectionIsNamed(flags: int, content: seq<byte>, checksum: seq<byte>)
    requires 0 <= flags < TWO_32 && |checksum| == (if flags % 2 != 0 then 4 else 0)
    requires 4 + |content| < TWO_32
    ensures Command(2013, Le32(flags) + ([0] + Sized(content) + checksum)) == FirstKey(Sized(content))
  {
    SectionsAreFound(flags, [0] + Sized(content), checksum);
    assert [0] + Sized(content) == [0] + Sized(content) + [];
    FirstSection(Section(0, content), []);
  }

  /** RunCommandFlags sends one document behind the flag bits: named, unless the bits announce a checksum
      that is not there. */
  lemma PayloadIsNamed(flags: int, content: seq<byte>)
    requires 0 <= flags < TWO_32 && 4 + |content| < TWO_32
    ensures Command(2013, Payload(flags, Sized(content))) == if flags % 2 == 0 then FirstKey(Sized(content)) else []
  {
    var section := [0] + Sized(content);
    assert Payload(flags, Sized(content)) == Le32(flags) + section;
    if flags % 2 == 0 {
      assert section + [] == section;
      OneSectionIsNamed(flags, content, []);
    } else {
      FlagsRead(flags, section);
      CutSection(0, content, |section| - 4);
    }
  }

  lemma PayloadWithTail(flags: int, document: seq<byte>, tail: seq<byte>)
    ensures Payload(flags, document) + tail == Le32(flags) + ([0] + document + tail)
  {
  }

  /** The proxy names every checksummed command by the first key of its document, except that a flag
      without checksum bytes hides the name. */
  lemma ChecksummedCommandIsNamed(codec: Codec, requestId: int, content: seq<byte>, checksum: Checksum)
    requires 4 + |content| < TWO_32
    ensures Command(2013, ChecksummedMessage(codec, requestId, Sized(content), checksum)[HEADER_LEN..])
              == if checksum == FlagOnly then [] else FirstKey(Sized(content))
  {
    ChecksummedBody(codec, requestId, Sized(content), checksum);
    PayloadIsNamed(CHECKSUM_PRESENT, content);
    if checksum == FlagOnly {
      assert Payload(CHECKSUM_PRESENT, Sized(content)) + [] == Payload(CHECKSUM_PRESENT, Sized(content));
    } else {
      var tail := Tail(codec, requestId, Sized(content), checksum);
      PayloadWithTail(CHECKSUM_PRESENT, Sized(content), tail);
      OneSectionIsNamed(CHECKSUM_PRESENT, content, tail);
    }
  }
}
