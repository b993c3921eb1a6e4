/** The zone and drift documents of `src/ui/dashboard_json_v2.cpp`, and a reader for them. */
module DashboardJson {
  import opened JsonText
  import opened Order
  import opened Text
  import opened ZoneDrift

  // ----- JSON values ---------------------------------------------------------------

  /** The values the writer uses; objects keep the order of their members. */
  datatype Json =
    | JNull
    | JBool(b: bool)
    | JString(s: string)
    | JArray(elements: seq<Json>)
    | JObject(members: seq<Member>)

  datatype Member = Member(name: string, value: Json)

  /** The compact text of a value. */
  function Render(v: Json): string
    decreases v, 0
  {
    match v
    case JNull => "null"
    case JBool(b) => if b then "true" else "false"
    case JString(s) => Quote(s)
    case JArray(elements) => "[" + RenderElements(elements) + "]"
    case JObject(members) => "{" + RenderMembers(members) + "}"
  }

  function RenderElements(elements: seq<Json>): string
    decreases elements, 1
  {
    if elements == [] then ""
    else if |elements| == 1 then Render(elements[0])
    else Render(elements[0]) + "," + RenderElements(elements[1..])
  }

  function RenderMember(m: Member): string
    decreases m, 1
  {
    Quote(m.name) + ":" + Render(m.value)
  }

  function RenderMembers(members: seq<Member>): string
    decreases members, 2
  {
    if members == [] then ""
    else if |members| == 1 then RenderMember(members[0])
    else RenderMember(members[0]) + "," + RenderMembers(members[1..])
  }

  // ----- Reading: sections 3 to 5 of RFC 8259, without whitespace and numbers ----------

  function ReadLiteral(s: string, literal: string, v: Json): (r: Read<Json>)
    ensures r.Read? ==> |r.rest| + |literal| == |s|
  {
    if literal <= s then Read(v, s[|literal|..]) else Refused
  }

  function ReadValue(s: string): (r: Read<Json>)
    ensures r.Read? ==> |r.rest| < |s|
    decreases |s|, 0
  {
    if s == [] then Refused
    else if s[0] == '"' then
      match ReadChars(s[1..])
      case Refused => Refused
      case Read(text, rest) => Read(JString(text), rest)
    else if s[0] == '[' then
      if |s| > 1 && s[1] == ']' then Read(JArray([]), s[2..])
      else
        match ReadElements(s[1..])
        case Refused => Refused
        case Read(elements, rest) => Read(JArray(elements), rest)
    else if s[0] == '{' then
      if |s| > 1 && s[1] == '}' then Read(JObject([]), s[2..])
      else
        match ReadMembers(s[1..])
        case Refused => Refused
        case Read(members, rest) => Read(JObject(members), rest)
    else if s[0] == 't' then ReadLiteral(s, "true", JBool(true))
    else if s[0] == 'f' then ReadLiteral(s, "false", JBool(false))
    else ReadLiteral(s, "null", JNull)
  }

  /** One or more elements, and the closing bracket. */
  function ReadElements(s: string): (r: Read<seq<Json>>)
    ensures r.Read? ==> |r.rest| < |s|
    decreases |s|, 1
  {
    match ReadValue(s)
    case Refused => Refused
    case Read(v, rest) =>
      if rest == [] then Refused
      else if rest[0] == ']' then Read([v], rest[1..])
      else if rest[0] == ',' then
        match ReadElements(rest[1..])
        case Refused => Refused
        case Read(more, after) => Read([v] + more, after)
      else Refused
  }

  /** One or more members, and the closing brace. */
  function ReadMembers(s: string): (r: Read<seq<Member>>)
    ensures r.Read? ==> |r.rest| < |s|
    decreases |s|, 1
  {
    match ReadString(s)
    case Refused => Refused
    case Read(name, tail) =>
      if tail == [] || tail[0] != ':' then Refused
      else
        match ReadValue(tail[1..])
        case Refused => Refused
        case Read(v, rest) =>
          if rest == [] then Refused
          else if rest[0] == '}' then Read([Member(name, v)], rest[1..])
          else if rest[0] == ',' then
            match ReadMembers(rest[1..])
            case Refused => Refused
            case Read(more, after) => Read([Member(name, v)] + more, after)
          else Refused
  }

  /** What a value's text can begin with. */
  lemma RenderedStart(v: Json)
    ensures Render(v) != [] && Render(v)[0] in {'n', 't', 'f', '"', '[', '{'}
  {
  }

  lemma ReadNonemptyArray(s: string, elements: seq<Json>, rest: string)
    requires s != [] && s[0] !in {']'} && ReadElements(s) == Read(elements, rest)
    ensures ReadValue("[" + s) == Read(JArray(elements), rest)
  {
    assert ("[" + s)[1..] == s;
  }

  lemma ReadNonemptyObject(s: string, members: seq<Member>, rest: string)
    requires s != [] && s[0] == '"' && ReadMembers(s) == Read(members, rest)
    ensures ReadValue("{" + s) == Read(JObject(members), rest)
  {
    assert ("{" + s)[1..] == s;
  }

  lemma ReadLastElement(s: string, v: Json, rest: string)
    requires ReadValue(s) == Read(v, "]" + rest)
    ensures ReadElements(s) == Read([v], rest)
  {
    assert ("]" + rest)[1..] == rest;
  }

  lemma ReadOneElement(s: string, v: Json, tail: string, more: seq<Json>, rest: string)
    requires ReadValue(s) == Read(v, "," + tail) && ReadElements(tail) == Read(more, rest)
    ensures ReadElements(s) == Read([v] + more, rest)
  {
    assert ("," + tail)[1..] == tail;
  }

  lemma ReadLastMember(s: string, name: string, t: string, v: Json, rest: string)
    requires ReadString(s) == Read(name, ":" + t) && ReadValue(t) == Read(v, "}" + rest)
    ensures ReadMembers(s) == Read([Member(name, v)], rest)
  {
    assert (":" + t)[1..] == t && ("}" + rest)[1..] == rest;
  }

  lemma ReadOneMember(s: string, name: string, t: string, v: Json, tail: string, more: seq<Member>, rest: string)
    requires ReadString(s) == Read(name, ":" + t) && ReadValue(t) == Read(v, "," + tail)
    requires ReadMembers(tail) == Read(more, rest)
    ensures ReadMembers(s) == Read([Member(name, v)] + more, rest)
  {
    assert (":" + t)[1..] == t && ("," + tail)[1..] == tail;
  }

  lemma AtomReadsBack(v: Json, rest: string)
    requires v.JNull? || v.JBool? || v.JString? || v == JArray([]) || v == JObject([])
    ensures ReadValue(Render(v) + rest) == Read(v, rest)
  {
    var s := Render(v) + rest;
    match v {
      case JNull =>
        assert s[4..] == rest;
      case JBool(b) =>
        assert s[if b then 4 else 5..] == rest;
      case JString(text) =>
        QuotedReadsBack(text, rest);
        assert s[0] == '"';
      case JArray(elements) =>
        assert s[2..] == rest;
      case JObject(members) =>
        assert s[2..] == rest;
    }
  }

  /** Reading a rendered value yields it and stops right behind it. */
  lemma {:induction false} RenderedReadsBack(v: Json, rest: string)
    ensures ReadValue(Render(v) + rest) == Read(v, rest)
    decreases v, 0
  {
    if v.JArray? && v.elements != [] {
      var s := RenderElements(v.elements) + ("]" + rest);
      ElementsReadBack(v.elements, rest);
      RenderedStart(v.elements[0]);
      ReadNonemptyArray(s, v.elements, rest);
      ConcatToTheRight("[", RenderElements(v.elements), "]", rest);
    } else if v.JObject? && v.members != [] {
      var s := RenderMembers(v.members) + ("}" + rest);
      MembersReadBack(v.members, rest);
      ReadNonemptyObject(s, v.members, rest);
      ConcatToTheRight("{", RenderMembers(v.members), "}", rest);
    } else {
      AtomReadsBack(v, rest);
    }
  }

  lemma ElementsText(elements: seq<Json>, after: string)
    requires |elements| > 1
    ensures RenderElements(elements) + after == Render(elements[0]) + ("," + (RenderElements(elements[1..]) + after))
  {
    ConcatToTheRight(Render(elements[0]), ",", RenderElements(elements[1..]), after);
  }

  lemma MemberText(m: Member, after: string)
    ensures RenderMember(m) + after == Quote(m.name) + (":" + (Render(m.value) + after))
  {
    ConcatToTheRight(Quote(m.name), ":", Render(m.value), after);
  }

  lemma MembersText(members: seq<Member>, after: string)
    requires |members| > 1
    ensures RenderMembers(members) + after == RenderMember(members[0]) + ("," + (RenderMembers(members[1..]) + after))
  {
    ConcatToTheRight(RenderMember(members[0]), ",", RenderMembers(members[1..]), after);
  }

  lemma {:induction false} ElementsReadBack(elements: seq<Json>, rest: string)
    requires elements != []
    ensures ReadElements(RenderElements(elements) + ("]" + rest)) == Read(elements, rest)
    decreases elements, 1
  {
    var first, after := elements[0], "]" + rest;
    if |elements| == 1 {
      RenderedReadsBack(first, after);
      ReadLastElement(Render(first) + after, first, rest);
      assert elements == [first];
    } else {
      var more := elements[1..];
      var tail := RenderElements(more) + after;
      ElementsText(elements, after);
      RenderedReadsBack(first, "," + tail);
      ElementsReadBack(more, rest);
      ReadOneElement(Render(first) + ("," + tail), first, tail, more, rest);
      assert elements == [first] + more;
    }
  }

  lemma {:induction false} MembersReadBack(members: seq<Member>, rest: string)
    requires members != []
    ensures ReadMembers(RenderMembers(members) + ("}" + rest)) == Read(members, rest)
    decreases members, 1
  {
    var first, after := members[0], "}" + rest;
    if |members| == 1 {
      var t := Render(first.value) + after;
      MemberText(first, after);
      QuotedReadsBack(first.name, ":" + t);
      RenderedReadsBack(first.value, after);
      ReadLastMember(Quote(first.name) + (":" + t), first.name, t, first.value, rest);
      assert members == [first];
    } else {
      var more := members[1..];
      var tail := RenderMembers(more) + after;
      var t := Render(first.value) + ("," + tail);
      MembersText(members, after);
      MemberText(first, "," + tail);
      QuotedReadsBack(first.name, ":" + t);
      RenderedReadsBack(first.value, "," + tail);
      MembersReadBack(more, rest);
      ReadOneMember(Quote(first.name) + (":" + t), first.name, t, first.value, tail, more, rest);
      assert members == [first] + more;
    }
  }

  // ----- String arrays ---------------------------------------------------------------

  function StringArray(values: seq<string>): Json {
    JArray(seq(|values|, k requires 0 <= k < |values| => JString(values[k])))
  }

  lemma {:induction false} RenderElementsSnoc(elements: seq<Json>, last: Json)
    ensures RenderElements(elements + [last]) ==
            if elements == [] then Render(last) else RenderElements(elements) + "," + Render(last)
  {
    if |elements| > 0 {
      assert (elements + [last])[1..] == elements[1..] + [last];
      RenderElementsSnoc(elements[1..], last);
      if |elements| == 1 {
        assert elements[1..] == [];
      } else {
        ConcatToTheRight(Render(elements[0]), ",", RenderElements(elements[1..]), "," + Render(last));
        ConcatAssociative(RenderElements(elements), ",", Render(last));
        ConcatAssociative(RenderElements(elements[1..]), ",", Render(last));
      }
    }
  }

  /** An array being written behind `output`: its bracket is still open. */
  function OpenArray(output: string, elements: seq<Json>): string {
    output + "[" + RenderElements(elements)
  }

  function Separator(index: nat): string {
    if index == 0 then "" else ","
  }

  lemma OpenArraySnoc(output: string, elements: seq<Json>, last: Json)
    ensures OpenArray(output, elements + [last]) == OpenArray(output, elements) + Separator(|elements|) + Render(last)
  {
    RenderElementsSnoc(elements, last);
    if elements == [] {
      assert OpenArray(output, elements) == output + "[";
    } else {
      ConcatToTheRight(output + "[", RenderElements(elements), ",", Render(last));
      ConcatAssociative(RenderElements(elements), ",", Render(last));
    }
  }

  lemma ClosedArray(output: string, elements: seq<Json>)
    ensures OpenArray(output, elements) + "]" == output + Render(JArray(elements))
  {
    ConcatToTheRight(output, "[", RenderElements(elements), "]");
    ConcatAssociative("[", RenderElements(elements), "]");
  }

  method AppendStringArray(output: string, values: seq<string>) returns (r: string)
    ensures r == output + Render(StringArray(values))
  {
    ghost var elements := StringArray(values).elements;
    r := output + "[";
    for index := 0 to |values|
      invariant r == OpenArray(output, elements[..index])
    {
      assert elements[..index + 1] == elements[..index] + [JString(values[index])];
      OpenArraySnoc(output, elements[..index], JString(values[index]));
      r := r + Separator(index) + Quote(values[index]);
    }
    assert elements[..|values|] == elements;
    ClosedArray(output, elements);
    r := r + "]";
  }

  // ----- Objects -----------------------------------------------------------------------

  /** A key in which nothing needs escaping. */
  predicate PlainKey(key: string) {
    forall k :: 0 <= k < |key| ==> 'a' <= key[k] <= 'z' || key[k] == '_'
  }

  predicate PlainKeys(members: seq<Member>) {
    forall k :: 0 <= k < |members| ==> PlainKey(members[k].name)
  }

  lemma {:induction false} PlainKeyIsItself(key: string)
    requires PlainKey(key)
    ensures Escaped(key) == key
  {
    if key != [] {
      PlainKeyIsItself(key[1..]);
      assert EscapeChar(key[0]) == [key[0]];
    }
  }

  /** An object being written behind `output`: its brace is still open. */
  function OpenObject(output: string, members: seq<Member>): string {
    output + "{" + RenderMembers(members)
  }

  lemma {:induction false} RenderMembersSnoc(members: seq<Member>, last: Member)
    ensures RenderMembers(members + [last]) ==
            if members == [] then RenderMember(last) else RenderMembers(members) + "," + RenderMember(last)
  {
    if |members| > 0 {
      assert (members + [last])[1..] == members[1..] + [last];
      RenderMembersSnoc(members[1..], last);
      if |members| == 1 {
        assert members[1..] == [];
      } else {
        ConcatToTheRight(RenderMember(members[0]), ",", RenderMembers(members[1..]), "," + RenderMember(last));
        ConcatAssociative(RenderMembers(members), ",", RenderMember(last));
        ConcatAssociative(RenderMembers(members[1..]), ",", RenderMember(last));
      }
    }
  }

  lemma OpenObjectSnoc(output: string, members: seq<Member>, last: Member)
    ensures OpenObject(output, members + [last]) == OpenObject(output, members) + Separator(|members|) + RenderMember(last)
  {
    RenderMembersSnoc(members, last);
    if members == [] {
      assert OpenObject(output, members) == output + "{";
    } else {
      ConcatToTheRight(output + "{", RenderMembers(members), ",", RenderMember(last));
      ConcatAssociative(RenderMembers(members), ",", RenderMember(last));
    }
  }

  lemma ClosedObject(output: string, members: seq<Member>)
    ensures OpenObject(output, members) + "}" == output + Render(JObject(members))
  {
    ConcatToTheRight(output, "{", RenderMembers(members), "}");
    ConcatAssociative("{", RenderMembers(members), "}");
  }

  /** The comma, where one is due, and the key: the writer's literals such as `,"sources":`. */
  function KeyText(key: string, index: nat): string {
    Separator(index) + ("\"" + key + "\":")
  }

  /** Writing a key and then the text of a value adds that member. */
  lemma KeyAndValueAddMember(output: string, members: seq<Member>, key: string, v: Json)
    requires PlainKey(key)
    ensures (OpenObject(output, members) + KeyText(key, |members|)) + Render(v) ==
            OpenObject(output, members + [Member(key, v)])
  {
    PlainKeyIsItself(key);
    OpenObjectSnoc(output, members, Member(key, v));
    assert "\"" + key + "\":" == Quote(key) + ":";
    ConcatInTheMiddle(OpenObject(output, members), Separator(|members|), Quote(key) + ":", Render(v));
  }

  lemma KeyAndValueReachNext(output: string, all: seq<Member>, index: nat)
    requires index < |all| && PlainKeys(all)
    ensures OpenObject(output, all[..index]) + KeyText(all[index].name, index) + Render(all[index].value) ==
            OpenObject(output, all[..index + 1])
  {
    KeyAndValueAddMember(output, all[..index], all[index].name, all[index].value);
    assert all[..index] + [Member(all[index].name, all[index].value)] == all[..index + 1];
  }

  method AppendBool(r: string, ghost output: string, ghost all: seq<Member>, index: nat, key: string, b: bool)
    returns (r': string)
    requires index < |all| && all[index] == Member(key, JBool(b))
    requires PlainKeys(all) && r == OpenObject(output, all[..index])
    ensures r' == OpenObject(output, all[..index + 1])
  {
    KeyAndValueReachNext(output, all, index);
    r' := r + KeyText(key, index) + if b then "true" else "false";
  }

  method AppendText(r: string, ghost output: string, ghost all: seq<Member>, index: nat, key: string, text: string)
    returns (r': string)
    requires index < |all| && all[index] == Member(key, JString(text))
    requires PlainKeys(all) && r == OpenObject(output, all[..index])
    ensures r' == OpenObject(output, all[..index + 1])
  {
    KeyAndValueReachNext(output, all, index);
    r' := r + KeyText(key, index) + Quote(text);
  }

  method AppendList(r: string, ghost output: string, ghost all: seq<Member>, index: nat, key: string, values: seq<string>)
    returns (r': string)
    requires index < |all| && all[index] == Member(key, StringArray(values))
    requires PlainKeys(all) && r == OpenObject(output, all[..index])
    ensures r' == OpenObject(output, all[..index + 1])
  {
    KeyAndValueReachNext(output, all, index);
    r' := AppendStringArray(r + KeyText(key, index), values);
  }

  // ----- Zones --------------------------------------------------------------------------

  /** What the document says about one zone. */
  datatype ZoneEntry = ZoneEntry(name: string, applicable: bool, active: bool, zone: ZoneState)

  function ZoneMembers(e: ZoneEntry): seq<Member> {
    [Member("name", JString(e.name)),
     Member("applicable", JBool(e.applicable)),
     Member("active", JBool(e.active)),
     Member("target", JString(e.zone.target)),
     Member("interfaces", StringArray(e.zone.interfaces)),
     Member("sources", StringArray(e.zone.sources)),
     Member("services", StringArray(e.zone.services)),
     Member("ports", StringArray(e.zone.ports)),
     Member("protocols", StringArray(e.zone.protocols)),
     Member("source_ports", StringArray(e.zone.sourcePorts)),
     Member("rich_rules", StringArray(e.zone.richRules)),
     Member("forward_ports", StringArray(e.zone.forwardPorts)),
     Member("masquerade", JBool(e.zone.masquerade)),
     Member("forward", JBool(e.zone.forward)),
     Member("details_valid", JBool(e.zone.detailsValid))]
  }

  function Keys(members: seq<Member>): seq<string> {
    seq(|members|, k requires 0 <= k < |members| => members[k].name)
  }

  /** A zone's members come in this order, and a differing zone's in that. */
  lemma MembersAreInOrder(e: ZoneEntry, state: FirewallState, name: string)
    ensures Keys(ZoneMembers(e)) == ["name", "applicable", "active", "target", "interfaces", "sources", "services", "ports",
                                     "protocols", "source_ports", "rich_rules", "forward_ports", "masquerade", "forward",
                                     "details_valid"]
    ensures Keys(DriftMembers(state, name)) == ["zone", "runtime_present", "permanent_present", "dimensions"]
  {
  }

  lemma ScalarKeysArePlain()
    ensures PlainKey("name") && PlainKey("applicable") && PlainKey("active") && PlainKey("target")
    ensures PlainKey("masquerade") && PlainKey("forward") && PlainKey("details_valid")
  {
  }

  lemma ListKeysArePlain()
    ensures PlainKey("interfaces") && PlainKey("sources") && PlainKey("services") && PlainKey("ports")
    ensures PlainKey("protocols") && PlainKey("source_ports") && PlainKey("rich_rules") && PlainKey("forward_ports")
  {
  }

  lemma ZoneKeysArePlain(e: ZoneEntry)
    ensures PlainKeys(ZoneMembers(e))
  {
    ScalarKeysArePlain();
    ListKeysArePlain();
  }

  method AppendZone(output: string, e: ZoneEntry) returns (r: string)
    ensures r == output + Render(JObject(ZoneMembers(e)))
  {
    ghost var all := ZoneMembers(e);
    ZoneKeysArePlain(e);
    r := output + "{";
    r := AppendText(r, output, all, 0, "name", e.name);
    r := AppendBool(r, output, all, 1, "applicable", e.applicable);
    r := AppendBool(r, output, all, 2, "active", e.active);
    r := AppendText(r, output, all, 3, "target", e.zone.target);
    r := AppendZoneLists(r, output, e);
    r := AppendBool(r, output, all, 12, "masquerade", e.zone.masquerade);
    r := AppendBool(r, output, all, 13, "forward", e.zone.forward);
    r := AppendBool(r, output, all, 14, "details_valid", e.zone.detailsValid);
    assert all[..15] == all;
    ClosedObject(output, all);
    r := r + "}";
  }

  /** The eight list members in the middle of `append_zone`. */
  method AppendZoneLists(before: string, ghost output: string, e: ZoneEntry) returns (r: string)
    requires before == OpenObject(output, ZoneMembers(e)[..4])
    ensures r == OpenObject(output, ZoneMembers(e)[..12])
  {
    ghost var all := ZoneMembers(e);
    ZoneKeysArePlain(e);
    r := AppendList(before, output, all, 4, "interfaces", e.zone.interfaces);
    r := AppendList(r, output, all, 5, "sources", e.zone.sources);
    r := AppendList(r, output, all, 6, "services", e.zone.services);
    r := AppendList(r, output, all, 7, "ports", e.zone.ports);
    r := AppendMoreZoneLists(r, output, e);
  }

  method AppendMoreZoneLists(before: string, ghost output: string, e: ZoneEntry) returns (r: string)
    requires before == OpenObject(output, ZoneMembers(e)[..8])
    ensures r == OpenObject(output, ZoneMembers(e)[..12])
  {
    ghost var all := ZoneMembers(e);
    ZoneKeysArePlain(e);
    r := AppendList(before, output, all, 8, "protocols", e.zone.protocols);
    r := AppendList(r, output, all, 9, "source_ports", e.zone.sourcePorts);
    r := AppendList(r, output, all, 10, "rich_rules", e.zone.richRules);
    r := AppendList(r, output, all, 11, "forward_ports", e.zone.forwardPorts);
  }

  // ----- Reading a zone back ---------------------------------------------------------------

  function Strings(v: Json): Option<seq<string>> {
    if v.JArray? && forall k :: 0 <= k < |v.elements| ==> v.elements[k].JString?
    then Some(seq(|v.elements|, k requires 0 <= k < |v.elements| => v.elements[k].s))
    else None
  }

  lemma StringsOfArray(values: seq<string>)
    ensures Strings(StringArray(values)) == Some(values)
  {
    var elements := StringArray(values).elements;
    assert seq(|elements|, k requires 0 <= k < |elements| => elements[k].s) == values;
  }

  /** The value of the first member of that name. */
  function Lookup(members: seq<Member>, name: string): Json {
    if members == [] then JNull
    else if members[0].name == name then members[0].value
    else Lookup(members[1..], name)
  }

  function LookupBool(members: seq<Member>, name: string): bool {
    Lookup(members, name) == JBool(true)
  }

  function LookupText(members: seq<Member>, name: string): string {
    match Lookup(members, name)
    case JString(s) => s
    case _ => ""
  }

  function LookupList(members: seq<Member>, name: string): seq<string> {
    match Strings(Lookup(members, name))
    case Some(values) => values
    case None => []
  }

  /** A consumer's view of a zone object, member by member, by name. */
  function ZoneFromMembers(m: seq<Member>): ZoneEntry {
    ZoneEntry(
      LookupText(m, "name"), LookupBool(m, "applicable"), LookupBool(m, "active"),
      ZoneState(
        LookupText(m, "target"), LookupList(m, "interfaces"), LookupList(m, "sources"), LookupList(m, "services"),
        LookupList(m, "ports"), LookupList(m, "protocols"), LookupList(m, "source_ports"), LookupList(m, "rich_rules"),
        LookupList(m, "forward_ports"), LookupBool(m, "masquerade"), LookupBool(m, "forward"),
        LookupBool(m, "details_valid")))
  }

  lemma {:induction false} LookupFindsTheMember(members: seq<Member>, k: nat)
    requires k < |members|
    requires forall j :: 0 <= j < k ==> members[j].name != members[k].name
    ensures Lookup(members, members[k].name) == members[k].value
  {
    if k > 0 {
      LookupFindsTheMember(members[1..], k - 1);
    }
  }

  /** Length and first letter already tell the fifteen keys apart. */
  const KEY_LENGTHS: seq<nat> := [4, 10, 6, 6, 10, 7, 8, 5, 9, 12, 10, 13, 10, 7, 13]
  const KEY_INITIALS: string := "naatisspp" + "srfmfd"

  lemma ZoneKeyMarks(e: ZoneEntry, k: nat)
    requires k < 15
    ensures var key := ZoneMembers(e)[k].name; |key| == KEY_LENGTHS[k] && key[0] == KEY_INITIALS[k]
  {
  }

  lemma KeyMarksAreDistinct(j: nat, k: nat)
    requires j < k < 15
    ensures KEY_LENGTHS[j] != KEY_LENGTHS[k] || KEY_INITIALS[j] != KEY_INITIALS[k]
  {
  }

  lemma ZoneKeysAreDistinct(e: ZoneEntry)
    ensures var m := ZoneMembers(e); forall j, k :: 0 <= j < k < |m| ==> m[j].name != m[k].name
  {
    var m := ZoneMembers(e);
    forall j, k | 0 <= j < k < |m| ensures m[j].name != m[k].name {
      ZoneKeyMarks(e, j);
      ZoneKeyMarks(e, k);
      KeyMarksAreDistinct(j, k);
    }
  }

  lemma ZoneLookup(e: ZoneEntry, k: nat)
    requires k < 15
    ensures Lookup(ZoneMembers(e), ZoneMembers(e)[k].name) == ZoneMembers(e)[k].value
  {
    ZoneKeysAreDistinct(e);
    LookupFindsTheMember(ZoneMembers(e), k);
  }

  lemma ListReadsBack(m: seq<Member>, name: string, values: seq<string>)
    requires Lookup(m, name) == StringArray(values)
    ensures LookupList(m, name) == values
  {
    StringsOfArray(values);
  }

  lemma ZoneListsReadBack(e: ZoneEntry)
    ensures var m := ZoneMembers(e);
            && LookupList(m, "interfaces") == e.zone.interfaces && LookupList(m, "sources") == e.zone.sources
            && LookupList(m, "services") == e.zone.services && LookupList(m, "ports") == e.zone.ports
            && LookupList(m, "protocols") == e.zone.protocols && LookupList(m, "source_ports") == e.zone.sourcePorts
            && LookupList(m, "rich_rules") == e.zone.richRules && LookupList(m, "forward_ports") == e.zone.forwardPorts
  {
    var m := ZoneMembers(e);
    var values := [e.zone.interfaces, e.zone.sources, e.zone.services, e.zone.ports, e.zone.protocols,
                   e.zone.sourcePorts, e.zone.richRules, e.zone.forwardPorts];
    forall k | 0 <= k < 8 ensures LookupList(m, m[k + 4].name) == values[k] {
      ZoneLookup(e, k + 4);
      ListReadsBack(m, m[k + 4].name, values[k]);
    }
    assert LookupList(m, m[4].name) == values[0] && LookupList(m, m[5].name) == values[1];
    assert LookupList(m, m[6].name) == values[2] && LookupList(m, m[7].name) == values[3];
    assert LookupList(m, m[8].name) == values[4] && LookupList(m, m[9].name) == values[5];
    assert LookupList(m, m[10].name) == values[6] && LookupList(m, m[11].name) == values[7];
  }

  lemma ZoneScalarsReadBack(e: ZoneEntry)
    ensures var m := ZoneMembers(e);
            && LookupText(m, "name") == e.name && LookupText(m, "target") == e.zone.target
            && LookupBool(m, "applicable") == e.applicable && LookupBool(m, "active") == e.active
            && LookupBool(m, "masquerade") == e.zone.masquerade && LookupBool(m, "forward") == e.zone.forward
            && LookupBool(m, "details_valid") == e.zone.detailsValid
  {
    ZoneLookup(e, 0);
    ZoneLookup(e, 1);
    ZoneLookup(e, 2);
    ZoneLookup(e, 3);
    ZoneLookup(e, 12);
    ZoneLookup(e, 13);
    ZoneLookup(e, 14);
  }

  lemma ZoneMembersReadBack(e: ZoneEntry)
    ensures ZoneFromMembers(ZoneMembers(e)) == e
  {
    ZoneScalarsReadBack(e);
    ZoneListsReadBack(e);
  }

  /** Reading the text of a zone yields exactly its fields and lists. */
  lemma ZoneReadsBack(e: ZoneEntry, rest: string)
    ensures var read := ReadValue(Render(JObject(ZoneMembers(e))) + rest);
            && read.Read? && read.rest == rest
            && read.value.JObject? && ZoneFromMembers(read.value.members) == e
  {
    RenderedReadsBack(JObject(ZoneMembers(e)), rest);
    ZoneMembersReadBack(e);
  }

  /** Reading the text of a string array yields exactly its strings. */
  lemma StringArrayReadsBack(values: seq<string>, rest: string)
    ensures ReadValue(Render(StringArray(values)) + rest) == Read(StringArray(values), rest)
    ensures Strings(StringArray(values)) == Some(values)
  {
    RenderedReadsBack(StringArray(values), rest);
    StringsOfArray(values);
  }

  // ----- The drift list ---------------------------------------------------------------------

  function DriftMembers(state: FirewallState, name: string): seq<Member> {
    [Member("zone", JString(name)),
     Member("runtime_present", JBool(name in state.runtimeZones)),
     Member("permanent_present", JBool(name in state.permanentZones)),
     Member("dimensions", StringArray(ZoneDimensions(state, name)))]
  }

  /** One element per name with a difference. */
  function DriftElements(state: FirewallState, names: seq<string>): seq<Json> {
    if names == [] then []
    else (if ZoneDimensions(state, names[0]) == [] then [] else [JObject(DriftMembers(state, names[0]))])
         + DriftElements(state, names[1..])
  }

  ghost function DriftJson(state: FirewallState): Json {
    if BothAvailable(state) then JArray(DriftElements(state, InOrder(ZoneNames(state)))) else JNull
  }

  lemma PresenceKeysArePlain()
    ensures PlainKey("runtime_present") && PlainKey("permanent_present")
  {
  }

  lemma DriftKeysArePlain(state: FirewallState, name: string)
    ensures PlainKeys(DriftMembers(state, name))
  {
    PresenceKeysArePlain();
    assert PlainKey("zone") && PlainKey("dimensions");
  }

  method AppendDriftElement(output: string, state: FirewallState, name: string) returns (r: string)
    ensures r == output + Render(JObject(DriftMembers(state, name)))
  {
    ghost var all := DriftMembers(state, name);
    DriftKeysArePlain(state, name);
    r := output + "{";
    r := AppendText(r, output, all, 0, "zone", name);
    r := AppendBool(r, output, all, 1, "runtime_present", name in state.runtimeZones);
    r := AppendBool(r, output, all, 2, "permanent_present", name in state.permanentZones);
    r := AppendList(r, output, all, 3, "dimensions", ZoneDimensions(state, name));
    assert all[..4] == all;
    ClosedObject(output, all);
    r := r + "}";
  }

  /** The elements for `names` come after those for the names already dealt with. */
  ghost predicate DriftSoFar(state: FirewallState, done: seq<Json>, names: set<string>) {
    DriftElements(state, InOrder(ZoneNames(state))) == done + DriftElements(state, InOrder(names))
  }

  lemma DriftOneMore(state: FirewallState, done: seq<Json>, names: set<string>, name: string)
    requires DriftSoFar(state, done, names)
    requires name in names && forall other :: other in names ==> AtMost(name, other)
    ensures ZoneDimensions(state, name) != [] ==>
              DriftSoFar(state, done + [JObject(DriftMembers(state, name))], names - {name})
    ensures ZoneDimensions(state, name) == [] ==> DriftSoFar(state, done, names - {name})
  {
    InOrderStartsWithLeast(names, name);
    var rest := InOrder(names - {name});
    assert ([name] + rest)[1..] == rest;
    if ZoneDimensions(state, name) == [] {
      assert [] + DriftElements(state, rest) == DriftElements(state, rest);
    } else {
      ConcatAssociative(done, [JObject(DriftMembers(state, name))], DriftElements(state, rest));
    }
  }

  lemma DriftDone(state: FirewallState, done: seq<Json>)
    requires DriftSoFar(state, done, {})
    ensures done == DriftElements(state, InOrder(ZoneNames(state)))
  {
    InOrderIsSorted({});
    assert |InOrder({})| == |multiset(InOrder({}))|;
    assert done + [] == done;
  }

  method AppendDrift(output: string, state: FirewallState) returns (r: string)
    ensures r == output + Render(DriftJson(state))
  {
    if !BothAvailable(state) {
      return output + "null";
    }
    var names := ZoneNames(state);
    var written := 0;
    r := output + "[";
    ghost var done: seq<Json> := [];
    while names != {}
      invariant written == |done| && r == OpenArray(output, done)
      invariant DriftSoFar(state, done, names)
      decreases |names|
    {
      ghost var least := LeastExists(names);
      var name :| name in names && forall other :: other in names ==> AtMost(name, other);
      DriftOneMore(state, done, names, name);
      if ZoneDimensions(state, name) != [] {
        OpenArraySnoc(output, done, JObject(DriftMembers(state, name)));
        r := AppendDriftElement(r + Separator(written), state, name);
        written := written + 1;
        done := done + [JObject(DriftMembers(state, name))];
      }
      names := names - {name};
    }
    DriftDone(state, done);
    ClosedArray(output, done);
    r := r + "]";
  }

  lemma {:induction false} NoElementsExactly(state: FirewallState, names: seq<string>)
    ensures DriftElements(state, names) == [] <==> forall k :: 0 <= k < |names| ==> ZoneDimensions(state, names[k]) == []
  {
    if names != [] {
      NoElementsExactly(state, names[1..]);
      if DriftElements(state, names) == [] {
        forall k | 0 <= k < |names| ensures ZoneDimensions(state, names[k]) == [] {
          assert k > 0 ==> names[k] == names[1..][k - 1];
        }
      }
    }
  }

  /** The document says `[]` exactly when no zone differs; then the other two computations report agreement. */
  lemma EmptyDriftDocument(state: FirewallState)
    ensures DriftJson(state) == JArray([]) <==> BothAvailable(state) && EmptyDriftList(state)
    ensures DriftJson(state) == JArray([]) ==> RuntimeMatchesPermanent(state) && !RuntimeDiffersFromPermanent(state)
  {
    var names := InOrder(ZoneNames(state));
    NoElementsExactly(state, names);
    InOrderIsSorted(ZoneNames(state));
    forall name ensures name in ZoneNames(state) <==> name in names {
      assert name in multiset(names) <==> name in multiset(ZoneNames(state));
    }
    if BothAvailable(state) && EmptyDriftList(state) {
      EmptyListImpliesMatch(state);
    }
  }

  // ----- Reading the drift list back ---------------------------------------------------------

  datatype Difference = Difference(zone: string, runtimePresent: bool, permanentPresent: bool, dimensions: seq<string>)

  function DifferenceOf(state: FirewallState, name: string): Difference {
    Difference(name, name in state.runtimeZones, name in state.permanentZones, ZoneDimensions(state, name))
  }

  function DifferencesOf(state: FirewallState, names: seq<string>): seq<Difference> {
    if names == [] then []
    else (if ZoneDimensions(state, names[0]) == [] then [] else [DifferenceOf(state, names[0])])
         + DifferencesOf(state, names[1..])
  }

  /** A consumer's view of one element, member by member, by name. */
  function DifferenceFrom(v: Json): Difference {
    var m := if v.JObject? then v.members else [];
    Difference(LookupText(m, "zone"), LookupBool(m, "runtime_present"), LookupBool(m, "permanent_present"),
               LookupList(m, "dimensions"))
  }

  function DifferencesFrom(elements: seq<Json>): seq<Difference> {
    if elements == [] then [] else [DifferenceFrom(elements[0])] + DifferencesFrom(elements[1..])
  }

  lemma DriftKeysAreDistinct(state: FirewallState, name: string)
    ensures var m := DriftMembers(state, name); forall j, k :: 0 <= j < k < |m| ==> m[j].name != m[k].name
  {
    var m := DriftMembers(state, name);
    var lengths := [4, 15, 17, 10];
    forall k | 0 <= k < |m| ensures |m[k].name| == lengths[k] {}
  }

  lemma DifferenceReadsBack(state: FirewallState, name: string)
    ensures DifferenceFrom(JObject(DriftMembers(state, name))) == DifferenceOf(state, name)
  {
    var m := DriftMembers(state, name);
    DriftKeysAreDistinct(state, name);
    LookupFindsTheMember(m, 0);
    LookupFindsTheMember(m, 1);
    LookupFindsTheMember(m, 2);
    LookupFindsTheMember(m, 3);
    ListReadsBack(m, "dimensions", ZoneDimensions(state, name));
  }

  lemma {:induction false} DifferencesReadBack(state: FirewallState, names: seq<string>)
    ensures DifferencesFrom(DriftElements(state, names)) == DifferencesOf(state, names)
  {
    if names != [] {
      var later := DriftElements(state, names[1..]);
      DifferencesReadBack(state, names[1..]);
      if ZoneDimensions(state, names[0]) == [] {
        assert DriftElements(state, names) == later;
      } else {
        DifferenceReadsBack(state, names[0]);
        assert ([JObject(DriftMembers(state, names[0]))] + later)[1..] == later;
      }
    }
  }

  /** Names in strict order. */
  predicate InNameOrder(names: seq<string>) {
    forall i, j :: 0 <= i < j < |names| ==> AtMost(names[i], names[j]) && names[i] != names[j]
  }

  lemma InOrderHasNoDuplicates(names: set<string>)
    ensures InNameOrder(InOrder(names)) && forall name :: name in InOrder(names) <==> name in names
  {
    var order := InOrder(names);
    InOrderIsSorted(names);
    forall name ensures name in order <==> name in names {
      assert name in multiset(order) <==> name in multiset(names);
    }
    forall i, j | 0 <= i < j < |order| ensures order[i] != order[j] {
      if order[i] == order[j] {
        TwoPlacesCountTwice(order, i, j);
        assert false;
      }
    }
  }

  lemma TwoPlacesCountTwice(s: seq<string>, i: nat, j: nat)
    requires i < j < |s| && s[i] == s[j]
    ensures multiset(s)[s[i]] >= 2
  {
    var front, back := s[..j], s[j..];
    assert s == front + back && front[i] == s[i] && back[0] == s[j];
    assert s[i] in multiset(front) && s[i] in multiset(back);
  }

  /** The zone is missing on one side, or differs in more than its interfaces. */
  predicate ZoneDiffers(state: FirewallState, name: string) {
    || name !in state.runtimeZones || name !in state.permanentZones
    || state.runtimeZones[name].(interfaces := state.permanentZones[name].interfaces) != state.permanentZones[name]
  }

  /** What an element says about its zone is so. */
  ghost predicate SaysHowItDiffers(d: Difference, state: FirewallState) {
    && d.zone in ZoneNames(state) && ZoneDiffers(state, d.zone)
    && (d.runtimePresent <==> d.zone in state.runtimeZones) && (d.permanentPresent <==> d.zone in state.permanentZones)
    && if d.zone !in state.runtimeZones then d.dimensions == ["runtime_missing"]
       else if d.zone !in state.permanentZones then d.dimensions == ["permanent_missing"]
       else Tells(d.dimensions, state.runtimeZones[d.zone], state.permanentZones[d.zone])
  }

  function ZonesOf(list: seq<Difference>): seq<string> {
    seq(|list|, k requires 0 <= k < |list| => list[k].zone)
  }

  /** The list has every zone that differs, once, in name order, and says how. */
  ghost predicate ListsTheDifferences(list: seq<Difference>, state: FirewallState, names: seq<string>) {
    && InNameOrder(ZonesOf(list))
    && (forall d :: d in list ==> d.zone in names && SaysHowItDiffers(d, state))
    && forall name :: name in names && ZoneDiffers(state, name) ==> name in ZonesOf(list)
  }

  lemma DifferenceSays(state: FirewallState, name: string)
    requires name in ZoneNames(state)
    ensures ZoneDimensions(state, name) != [] <==> ZoneDiffers(state, name)
    ensures ZoneDiffers(state, name) ==> SaysHowItDiffers(DifferenceOf(state, name), state)
  {
    if name in state.runtimeZones && name in state.permanentZones {
      NoDimensionsExactly(state.runtimeZones[name], state.permanentZones[name]);
      DimensionsTell(state.runtimeZones[name], state.permanentZones[name]);
    }
  }

  lemma ListedInFront(first: Difference, later: seq<Difference>, state: FirewallState, names: seq<string>)
    requires ListsTheDifferences(later, state, names) && InNameOrder([first.zone] + names)
    requires SaysHowItDiffers(first, state)
    ensures ListsTheDifferences([first] + later, state, [first.zone] + names)
  {
    var list, all := [first] + later, [first.zone] + names;
    assert ZonesOf(list) == [first.zone] + ZonesOf(later);
    forall k | 0 <= k < |later| ensures AtMost(first.zone, later[k].zone) && first.zone != later[k].zone {
      assert later[k] in later;
      var i :| 0 <= i < |names| && names[i] == later[k].zone;
      assert all[0] == first.zone && all[i + 1] == later[k].zone;
    }
    forall i, j | 0 <= i < j < |list| ensures AtMost(ZonesOf(list)[i], ZonesOf(list)[j]) && ZonesOf(list)[i] != ZonesOf(list)[j] {
      if i > 0 {
        assert ZonesOf(list)[i] == ZonesOf(later)[i - 1] && ZonesOf(list)[j] == ZonesOf(later)[j - 1];
      } else {
        assert list[j] == later[j - 1];
      }
    }
  }

  lemma {:induction false} DifferencesAreListed(state: FirewallState, names: seq<string>)
    requires InNameOrder(names) && forall name :: name in names ==> name in ZoneNames(state)
    ensures ListsTheDifferences(DifferencesOf(state, names), state, names)
  {
    if names != [] {
      var first, later := names[0], names[1..];
      assert names == [first] + later;
      forall i, j | 0 <= i < j < |later| ensures AtMost(later[i], later[j]) && later[i] != later[j] {
        assert later[i] == names[i + 1] && later[j] == names[j + 1];
      }
      DifferencesAreListed(state, later);
      DifferenceSays(state, first);
      if ZoneDimensions(state, first) != [] {
        ListedInFront(DifferenceOf(state, first), DifferencesOf(state, later), state, later);
      } else {
        assert DifferencesOf(state, names) == DifferencesOf(state, later);
      }
    }
  }

  /** Reading the drift document: null unless both observations are complete, else every difference, and how. */
  lemma DriftReadsBack(state: FirewallState, rest: string)
    ensures var read := ReadValue(Render(DriftJson(state)) + rest);
            && read == Read(DriftJson(state), rest)
            && if state.runtimeZonesStatus == Available && state.permanentZonesStatus == Available
               then && read.value.JArray?
                    && DifferencesFrom(read.value.elements) == DifferencesOf(state, InOrder(ZoneNames(state)))
                    && ListsTheDifferences(DifferencesFrom(read.value.elements), state, InOrder(ZoneNames(state)))
               else read.value == JNull
    ensures forall name :: name in InOrder(ZoneNames(state)) <==> name in state.runtimeZones || name in state.permanentZones
  {
    RenderedReadsBack(DriftJson(state), rest);
    DifferencesReadBack(state, InOrder(ZoneNames(state)));
    InOrderHasNoDuplicates(ZoneNames(state));
    DifferencesAreListed(state, InOrder(ZoneNames(state)));
  }
}
