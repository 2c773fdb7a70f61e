/** What the page does with the model's parsed reply: the error wrapping of
    `analyze_with_cerebras`, the unwrapping of the reply into `data_list`,
    and the choice between showing the records, the source's error and the
    "no data" warning. */
module Reply {
  import opened Wrappers
  import opened PyStr

  /** A value produced by `json.loads`. An object keeps its members in the
      order of the text, as a Python dict does; `json.loads` leaves at most
      one member per key. */
  datatype Json =
    | JNull
    | JBool(b: bool)
    | JNumber(n: real)
    | JString(s: string)
    | JArray(items: seq<Json>)
    | JObject(members: seq<Member>)

  datatype Member = Member(key: string, value: Json)

  /** How the guarded part of the model call ended: a reply that
      `json.loads` parsed, or an exception raised by the request or the
      parse, with the text `str(e)`. Constructing the client happens before
      the `try` and is not covered here. */
  datatype CallResult = Parsed(value: Json) | Raised(message: string)

  /** The key the page looks for. */
  const ErrorKey: string := "error"

  /** `analyze_with_cerebras`'s return value once the client exists: the
      parsed reply, or, when the request or the parse raised, the object
      `{"error": message}`. */
  function AnalyzeReply(call: CallResult): (r: Json)
    ensures call.Parsed? ==> r == call.value
    ensures call.Raised? ==>
              && r.JObject? && |r.members| == 1
              && r.members[0].key == ErrorKey && r.members[0].value == JString(call.message)
  {
    match call
    case Parsed(v) => v
    case Raised(m) => JObject([Member(ErrorKey, JString(m))])
  }

  /** Index of the first member whose value is a list, or `|members|` when
      there is none. */
  function FirstListIndex(members: seq<Member>): (i: nat)
    ensures i <= |members|
    ensures forall j :: 0 <= j < i ==> !members[j].value.JArray?
    ensures i < |members| ==> members[i].value.JArray?
  {
    if members == [] then 0
    else if members[0].value.JArray? then 0
    else 1 + FirstListIndex(members[1..])
  }

  /** `data_list` after the unwrapping step. */
  function DataList(result: Json): (r: seq<Json>)
    ensures result.JArray? ==> r == result.items
    ensures result.JObject? ==> r != []
    ensures !result.JArray? && !result.JObject? ==> r == []
  {
    match result
    case JArray(items) => items
    case JObject(members) =>
      var i := FirstListIndex(members);
      if i < |members| && members[i].value.items != [] then members[i].value.items
      else [result]
    case _ => []
  }

  /** The unwrapping loop: a list reply is used as it is; an object reply
      gives the first member value that is a list, found by scanning the
      values in order and stopping at the first list; when that list is
      empty or there is none, the object itself becomes a one-element list;
      any other reply leaves `data_list` empty. */
  method UnwrapReply(result: Json) returns (dataList: seq<Json>)
    ensures dataList == DataList(result)
  {
    dataList := [];
    if result.JArray? {
      dataList := result.items;
    } else if result.JObject? {
      var members := result.members;
      var i := 0;
      while i < |members|
        invariant 0 <= i <= |members|
        invariant forall j :: 0 <= j < i ==> !members[j].value.JArray?
        invariant dataList == []
      {
        if members[i].value.JArray? {
          dataList := members[i].value.items;
          break;
        }
        i := i + 1;
      }
      if dataList == [] {
        dataList := [result];
      }
    }
  }

  /** Whether some member has the key `key`. */
  predicate HasKey(members: seq<Member>, key: string)
  {
    exists i :: 0 <= i < |members| && members[i].key == key
  }

  /** Python's `"error" in result`: key membership for a dict, element
      membership for a list, substring search for a str. For `None`, a bool
      or a number Python raises `TypeError`, shown here as `None`. */
  function ErrorIn(result: Json): (r: Option<bool>)
    ensures r.None? <==> result.JNull? || result.JBool? || result.JNumber?
  {
    match result
    case JObject(members) => Some(HasKey(members, ErrorKey))
    case JArray(items) => Some(JString(ErrorKey) in items)
    case JString(s) => Some(ContainsSubstring(s, ErrorKey))
    case _ => None
  }

  /** The value of the first member with key `key`, if any. */
  function Lookup(members: seq<Member>, key: string): Option<Json>
  {
    if members == [] then None
    else if members[0].key == key then Some(members[0].value)
    else Lookup(members[1..], key)
  }

  /** The lookup finds a value exactly when the key is present, and the
      value it finds is that of the first member carrying the key. */
  lemma {:induction false} LookupSpec(members: seq<Member>, key: string)
    ensures Lookup(members, key).Some? <==> HasKey(members, key)
    ensures Lookup(members, key).Some? ==>
              exists i :: 0 <= i < |members| && members[i] == Member(key, Lookup(members, key).value)
                          && forall j :: 0 <= j < i ==> members[j].key != key
  {
    if members != [] && members[0].key != key {
      var rest := members[1..];
      LookupSpec(rest, key);
      if HasKey(members, key) {
        var j :| 0 <= j < |members| && members[j].key == key;
        assert rest[j - 1].key == key;
      }
      if Lookup(rest, key).Some? {
        var i :| 0 <= i < |rest| && rest[i] == Member(key, Lookup(rest, key).value)
                 && forall j :: 0 <= j < i ==> rest[j].key != key;
        assert members[i + 1] == rest[i];
        assert forall j :: 0 < j < i + 1 ==> members[j] == rest[j - 1];
      }
    } else if members != [] {
      assert members[0] == Member(key, Lookup(members, key).value);
    }
  }

  /** Python's `result['error']` once `"error" in result` held: the member's
      value for a dict; a list or a str indexed by a str raises `TypeError`,
      shown here as `None`. */
  function ErrorDetail(result: Json): (r: Option<Json>)
    ensures !result.JObject? ==> r.None?
  {
    match result
    case JObject(members) => Lookup(members, ErrorKey)
    case _ => None
  }

  /** What the page ends up showing. `Aborted` is the page-level
      `except Exception` branch, reached here when one of the tests above
      raises `TypeError`. */
  datatype Outcome =
    | Extracted(records: seq<Json>)
    | SourceError(detail: Json)
    | NoData
    | Aborted

  /** The chain `if data_list and "error" not in result` / `elif "error" in
      result` / `else`, with Python's left-to-right evaluation. */
  function Decide(result: Json): (o: Outcome)
    ensures o.Extracted? <==> DataList(result) != [] && ErrorIn(result) == Some(false)
    ensures o.Extracted? ==> o.records == DataList(result)
    ensures o.SourceError? ==> ErrorIn(result) == Some(true) && result.JObject?
    ensures o.NoData? <==> DataList(result) == [] && ErrorIn(result) == Some(false)
  {
    var dataList := DataList(result);
    match ErrorIn(result)
    case None => Aborted
    case Some(found) =>
      if dataList != [] && !found then Extracted(dataList)
      else if found then
        match ErrorDetail(result)
        case Some(v) => SourceError(v)
        case None => Aborted
      else NoData
  }

  /** An object reply always yields a non-empty `data_list`: the first list
      member when it is non-empty, otherwise (the first list is empty, or
      there is none) the object itself. */
  lemma {:induction false} ObjectDataList(members: seq<Member>)
    ensures DataList(JObject(members)) != []
    ensures forall i :: 0 <= i < |members| && members[i].value.JArray?
                        && (forall j :: 0 <= j < i ==> !members[j].value.JArray?)
                        && members[i].value.items != []
                        ==> DataList(JObject(members)) == members[i].value.items
    ensures forall i :: 0 <= i < |members| && members[i].value.JArray?
                        && (forall j :: 0 <= j < i ==> !members[j].value.JArray?)
                        && members[i].value.items == []
                        ==> DataList(JObject(members)) == [JObject(members)]
    ensures (forall i :: 0 <= i < |members| ==> !members[i].value.JArray?)
            ==> DataList(JObject(members)) == [JObject(members)]
  {
    var k := FirstListIndex(members);
    forall i | 0 <= i < |members| && members[i].value.JArray?
               && (forall j :: 0 <= j < i ==> !members[j].value.JArray?)
      ensures i == k
    {
      assert !(i < k);
      assert !(k < i);
    }
  }

  /** For an object reply the records are shown exactly when it has no
      `"error"` key; otherwise that key's value is shown as the source's
      error. The "no data" warning is never reached. */
  lemma ObjectOutcome(members: seq<Member>)
    ensures var o := Decide(JObject(members));
            && (o.Extracted? <==> !HasKey(members, ErrorKey))
            && (HasKey(members, ErrorKey) ==>
                  Lookup(members, ErrorKey).Some? && o == SourceError(Lookup(members, ErrorKey).value))
            && !o.NoData? && !o.Aborted?
  {
    ObjectDataList(members);
    LookupSpec(members, ErrorKey);
  }

  /** For a list reply: an empty list gives the warning; a list holding the
      string "error" reaches `result['error']`, which raises; any other list
      is shown as the records. */
  lemma ListOutcome(items: seq<Json>)
    ensures var o := Decide(JArray(items));
            && (items == [] ==> o == NoData)
            && (JString(ErrorKey) in items ==> o == Aborted)
            && (items != [] && JString(ErrorKey) !in items ==> o == Extracted(items))
  {
  }

  /** A reply that is neither a list nor an object leaves `data_list`
      empty. A string without the substring "error" gives the warning; a
      string containing it reaches `result['error']`, and `None`, a bool or
      a number fail the `in` test: both raise. */
  lemma ScalarOutcome(result: Json)
    requires !result.JArray? && !result.JObject?
    ensures DataList(result) == []
    ensures Decide(result) ==
              if result.JString? && !ContainsSubstring(result.s, ErrorKey) then NoData else Aborted
  {
  }

  /** A failure of the request or the parse ends on the source-error message with
      the exception's text: the wrapper object becomes the one-element
      `data_list`, and its `"error"` key selects the error branch. */
  lemma FailedCallShowsError(message: string)
    ensures DataList(AnalyzeReply(Raised(message))) == [AnalyzeReply(Raised(message))]
    ensures Decide(AnalyzeReply(Raised(message))) == SourceError(JString(message))
  {
    var members := [Member(ErrorKey, JString(message))];
    assert members[0].key == ErrorKey;
    ObjectDataList(members);
  }
}
