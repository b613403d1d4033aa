/** Which part of a frame is kept as evidence. */
module Retention {
  import opened Bytes
  import opened Text
  import opened PacketDecode
  import opened PacketRoundTrip

  // ---- The decision ---------------------------------------------------------------------------

  datatype Rule = Rule(name: string, action: string)
  datatype Policy = Policy(mode: string, fallback: string, rules: seq<Rule>)
  datatype Decision = Decision(action: string, rule: string)

  /** One of the four actions, or nothing for any other text. */
  function NormalAction(a: string): string {
    var l := Lower(Trim(a));
    if l == "full" || l == "headers" || l == "metadata" || l == "drop" then l else ""
  }

  function FirstMatch(rules: seq<Rule>, hits: Rule -> bool): Option<Rule> {
    if rules == [] then None else if hits(rules[0]) then Some(rules[0]) else FirstMatch(rules[1..], hits)
  }

  /** `hits` says which rules match the packet and its flow. */
  function Decide(p: Policy, hits: Rule -> bool): Decision {
    var mode := Lower(Trim(p.mode));
    if mode == "" || mode == "full" then Decision("full", "")
    else
      match FirstMatch(p.rules, hits)
      case Some(r) => Decision(NormalAction(r.action), r.name)
      case None =>
        var a := NormalAction(p.fallback);
        Decision(if a != "" then a else if mode == "metadata" then "metadata" else "headers", "")
  }

  lemma {:induction false} FirstMatchIs(rules: seq<Rule>, hits: Rule -> bool, i: nat)
    requires i < |rules| && hits(rules[i]) && forall j :: 0 <= j < i ==> !hits(rules[j])
    ensures FirstMatch(rules, hits) == Some(rules[i])
    decreases i
  {
    if i > 0 { FirstMatchIs(rules[1..], hits, i - 1); }
  }

  /** Outside the full mode the first rule that matches decides, however many match after it. */
  lemma FirstRuleDecides(p: Policy, hits: Rule -> bool, i: nat)
    requires i < |p.rules| && hits(p.rules[i]) && forall j :: 0 <= j < i ==> !hits(p.rules[j])
    requires Lower(Trim(p.mode)) != "" && Lower(Trim(p.mode)) != "full"
    ensures Decide(p, hits) == Decision(NormalAction(p.rules[i].action), p.rules[i].name)
  {
    hide Trim, Lower, NormalAction, FirstMatch;
    FirstMatchIs(p.rules, hits, i);
  }

  /** A text names an action or a mode, in any letter case and with blanks around it. */
  predicate Names(text: string, word: string) { SameWord(Trim(text), word) }

  predicate NamesNone(text: string) {
    !Names(text, "full") && !Names(text, "headers") && !Names(text, "metadata") && !Names(text, "drop")
  }

  lemma NamesIff(text: string, word: string)
    requires Lower(word) == word
    ensures Lower(Trim(text)) == word <==> Names(text, word)
  {
    hide Trim, Lower, SameWord;
    SameWordIff(Trim(text), word);
  }

  lemma SmallWords()
    ensures Lower("full") == "full" && Lower("headers") == "headers" && Lower("metadata") == "metadata"
    ensures Lower("drop") == "drop" && Lower("") == ""
  {}

  lemma ActionIs(a: string)
    ensures Names(a, "full") ==> NormalAction(a) == "full"
    ensures Names(a, "headers") ==> NormalAction(a) == "headers"
    ensures Names(a, "metadata") ==> NormalAction(a) == "metadata"
    ensures Names(a, "drop") ==> NormalAction(a) == "drop"
    ensures NamesNone(a) ==> NormalAction(a) == ""
  {
    hide Trim, Lower, Names;
    SmallWords();
    NamesIff(a, "full");
    NamesIff(a, "headers");
    NamesIff(a, "metadata");
    NamesIff(a, "drop");
  }

  lemma {:induction false} NoMatch(rules: seq<Rule>, hits: Rule -> bool)
    requires forall j :: 0 <= j < |rules| ==> !hits(rules[j])
    ensures FirstMatch(rules, hits) == None
    decreases |rules|
  {
    if rules != [] { NoMatch(rules[1..], hits); }
  }

  /** A blank or full mode keeps frames whole whatever the rules say. In any other mode, when no rule
      matches, the fallback decides, and when it names no action, the mode: headers, unless it is
      metadata. */
  lemma ModeDecides(p: Policy, hits: Rule -> bool)
    ensures var full := Names(p.mode, "") || Names(p.mode, "full");
            && (full ==> Decide(p, hits) == Decision("full", ""))
            && (!full && (forall j :: 0 <= j < |p.rules| ==> !hits(p.rules[j])) ==>
                 && (forall w <- ["full", "headers", "metadata", "drop"] ::
                       Names(p.fallback, w) ==> Decide(p, hits) == Decision(w, ""))
                 && (NamesNone(p.fallback) ==>
                      Decide(p, hits) == Decision(if Names(p.mode, "metadata") then "metadata" else "headers", "")))
  {
    hide Trim, Lower, Names, NormalAction, FirstMatch, NamesNone;
    SmallWords();
    NamesIff(p.mode, "");
    NamesIff(p.mode, "full");
    NamesIff(p.mode, "metadata");
    ActionIs(p.fallback);
    if forall j :: 0 <= j < |p.rules| ==> !hits(p.rules[j]) { NoMatch(p.rules, hits); }
  }

  // ---- What is kept -------------------------------------------------------------------------------

  /** The octets recorded, or nothing; `data` is the captured frame. */
  function Apply(d: Decision, raw: seq<Byte>, payload: seq<Byte>, data: seq<Byte>): Option<seq<Byte>> {
    if d.action == "metadata" || d.action == "drop" then None
    else if d.action == "headers" then
      var off := |raw| - |payload|;
      Some(data[..if off < 0 || off > |data| then |data| else off])
    else Some(data)
  }

  const HEADERS := Decision("headers", "")

  /** Full frames are kept whole, metadata and drop keep nothing, and so do not differ here. */
  lemma ActionsKeep(rule: string, raw: seq<Byte>, payload: seq<Byte>, data: seq<Byte>)
    ensures Apply(Decision("full", rule), raw, payload, data) == Some(data)
    ensures Apply(Decision("metadata", rule), raw, payload, data) == Apply(Decision("drop", rule), raw, payload, data) == None
    ensures Apply(Decision("", rule), raw, payload, data) == Some(data)
  {}

  /** A rule whose action is none of the four keeps the whole frame of what it matches, where a fallback
      like that would cut it to its headers. */
  lemma UnknownActionKeepsAll(p: Policy, hits: Rule -> bool, i: nat, raw: seq<Byte>, payload: seq<Byte>, data: seq<Byte>)
    requires i < |p.rules| && hits(p.rules[i]) && forall j :: 0 <= j < i ==> !hits(p.rules[j])
    requires !Names(p.mode, "") && !Names(p.mode, "full") && NamesNone(p.rules[i].action)
    ensures Apply(Decide(p, hits), raw, payload, data) == Some(data)
  {
    hide Trim, Lower, Names, NormalAction, FirstMatch, NamesNone;
    SmallWords();
    NamesIff(p.mode, "");
    NamesIff(p.mode, "full");
    FirstRuleDecides(p, hits, i);
    ActionIs(p.rules[i].action);
    ActionsKeep(p.rules[i].name, raw, payload, data);
  }

  /** With the payload in the middle of the frame, headers mode keeps as many octets as stand before
      and after it: all before, and of the payload as many as follow it. No octet of the payload
      is kept if and only if nothing follows it. */
  lemma HeadersKeep(head: seq<Byte>, payload: seq<Byte>, trailer: seq<Byte>, rule: string)
    requires payload != []
    ensures var raw := head + payload + trailer; var kept := Apply(Decision("headers", rule), raw, payload, raw);
            && kept == Some(head + (payload + trailer)[..|trailer|])
            && (kept.value == head <==> trailer == [])
            && (|trailer| <= |payload| ==> kept == Some(head + payload[..|trailer|]))
  {
    var raw := head + payload + trailer;
    var off := |head| + |trailer|;
    assert raw[..off] == head + (payload + trailer)[..|trailer|];
    if trailer != [] { assert |raw[..off]| > |head|; } else { assert raw[..off] == head; }
    if |trailer| <= |payload| { assert (payload + trailer)[..|trailer|] == payload[..|trailer|]; }
  }

  /** An IPv4 frame, decoded and cut to its headers: the headers are kept, and the data is removed
      except for as many octets as the frame has after the datagram. */
  lemma Ip4FrameIsCut(macs: seq<Byte>, tags: seq<Tag>, h: Ip4, s: Segment, data: seq<Byte>, trailer: seq<Byte>)
    requires |macs| == 12 && ValidTags(tags) && ValidSegment(s) && ValidIp4(h, |SegmentBytes(s)| + |data|)
    ensures var raw := Ip4Frame(macs, tags, h, s, data, trailer); var p := ParseEthernet(raw);
            p.Ok? && Apply(HEADERS, raw, p.value.payload, raw) ==
                     Some(Headers4(macs, tags, h, s, |data|) + (data + trailer)[..|trailer|])
  {
    hide ParseEthernet, EthernetBytes, Ip4Bytes, SegmentBytes, ValidSegment, Expected, FirstVlan;
    Ip4FrameIsDecoded(macs, tags, h, s, data, trailer);
    ExpectedPayload(tags, 4, h.tos, h.src, h.dst, s, data);
    var raw := Ip4Frame(macs, tags, h, s, data, trailer);
    var head := Headers4(macs, tags, h, s, |data|);
    Regroup(EthernetBytes(macs, tags, IPV4), Ip4Bytes(h, Number(s), |SegmentBytes(s)| + |data|), SegmentBytes(s), data, trailer);
    assert raw == head + data + trailer;
    if data == [] {
      assert raw[..|raw|] == raw && (data + trailer)[..|trailer|] == trailer && head + data + trailer == head + trailer;
    } else {
      HeadersKeep(head, data, trailer, "");
    }
  }

  lemma ExpectedPayload(tags: seq<Tag>, version: nat, tos: Byte, src: seq<Byte>, dst: seq<Byte>, s: Segment, payload: seq<Byte>)
    ensures Expected(tags, version, tos, src, dst, s, payload).payload == payload
  {
    hide FirstVlan;
  }

  lemma Regroup(a: seq<Byte>, b: seq<Byte>, c: seq<Byte>, d: seq<Byte>, e: seq<Byte>)
    ensures a + (b + (c + d) + e) == a + b + c + d + e
  {}

  lemma Regroup6(a: seq<Byte>, b: seq<Byte>, c: seq<Byte>, d: seq<Byte>, e: seq<Byte>)
    ensures a + (b + (c + (d + e))) == a + b + c + d + e
  {}

  /** An IPv6 frame loses exactly its data. */
  lemma Ip6FrameIsCut(macs: seq<Byte>, tags: seq<Tag>, h: Ip6, exts: seq<Ext>, s: Segment, data: seq<Byte>)
    requires |macs| == 12 && ValidTags(tags) && ValidSegment(s) && ValidIp6(h) && ValidExts(exts)
    ensures var raw := Ip6Frame(macs, tags, h, exts, s, data); var p := ParseEthernet(raw);
            p.Ok? && Apply(HEADERS, raw, p.value.payload, raw) ==
                     Some(EthernetBytes(macs, tags, IPV6) + Ip6Bytes(h, NextOf(exts, Number(s)))
                          + ChainBytes(exts, Number(s)) + SegmentBytes(s))
  {
    hide ParseEthernet, EthernetBytes, Ip6Bytes, SegmentBytes, ValidSegment, Expected, FirstVlan, ChainBytes, NextOf, ValidIp6, ValidExts;
    Ip6FrameIsDecoded(macs, tags, h, exts, s, data);
    ExpectedPayload(tags, 6, h.tos, h.src, h.dst, s, data);
    var raw := Ip6Frame(macs, tags, h, exts, s, data);
    var head := EthernetBytes(macs, tags, IPV6) + Ip6Bytes(h, NextOf(exts, Number(s))) + ChainBytes(exts, Number(s)) + SegmentBytes(s);
    Regroup6(EthernetBytes(macs, tags, IPV6), Ip6Bytes(h, NextOf(exts, Number(s))), ChainBytes(exts, Number(s)), SegmentBytes(s), data);
    assert raw == head + data;
    assert raw[..|raw| - |data|] == head;
  }

  /** Any decoded frame with a payload: headers mode keeps all octets before the payload. */
  lemma AnyFrameKeepsItsHeaders(raw: seq<Byte>) returns (from: nat, to: nat)
    requires ParseEthernet(raw).Ok? && ParseEthernet(raw).value.payload != []
    ensures var payload := ParseEthernet(raw).value.payload;
            && IsSlice(raw, payload, from, to) && from >= 34
            && Apply(HEADERS, raw, payload, raw) == Some(raw[..from + (|raw| - to)])
  {
    hide ParseEthernet;
    from, to := PayloadIsSlice(raw);
  }
}
