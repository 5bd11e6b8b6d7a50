/**
 * The W3C `tracestate` list as OpenTelemetry's immutable `TraceState` holds
 * it: an ordered list of `(key, value)` members with unique keys. Every
 * operation returns a new list; none changes its argument.
 *
 * Also here: the two `OrderedDict` steps that the propagator's hand-written
 * update uses (assignment to an existing key keeps its position;
 * `move_to_end(key, last=False)` moves it to the front), and `MemberList`,
 * the mutable ordered dictionary those steps act on.
 */
module TraceStates {
  import opened Wrappers

  type Member = (string, string)
  type TraceState = seq<Member>

  /** No key occurs twice. */
  predicate UniqueKeys(ts: TraceState) {
    forall i, j :: 0 <= i < j < |ts| ==> ts[i].0 != ts[j].0
  }

  /** `trace_state.get(key)`: the value of the first member with that key. */
  function Get(ts: TraceState, key: string): (r: Option<string>)
  {
    if ts == [] then None
    else if ts[0].0 == key then Some(ts[0].1)
    else Get(ts[1..], key)
  }

  /** `key in trace_state.keys()` */
  predicate HasKey(ts: TraceState, key: string) {
    Get(ts, key).Some?
  }

  /** The members whose key is not `key`, in their original order. */
  function Remove(ts: TraceState, key: string): (r: TraceState)
  {
    if ts == [] then []
    else if ts[0].0 == key then Remove(ts[1..], key)
    else [ts[0]] + Remove(ts[1..], key)
  }

  /** `TraceState.add`: a new key goes in front; an existing key leaves the list as it is. */
  function Add(ts: TraceState, key: string, value: string): (r: TraceState)
  {
    if HasKey(ts, key) then ts else [(key, value)] + ts
  }

  /**
   * `TraceState.update`: an existing key gets the new value and moves to the
   * front; an absent key leaves the list as it is.
   */
  function Update(ts: TraceState, key: string, value: string): (r: TraceState)
  {
    if HasKey(ts, key) then [(key, value)] + Remove(ts, key) else ts
  }

  /** `ordered_dict[key] = value`: replace in place, or append a new key at the end. */
  function SetValue(ts: TraceState, key: string, value: string): (r: TraceState)
    ensures |r| == |ts| + (if HasKey(ts, key) then 0 else 1)
  {
    if ts == [] then [(key, value)]
    else if ts[0].0 == key then [(key, value)] + ts[1..]
    else [ts[0]] + SetValue(ts[1..], key, value)
  }

  /** `ordered_dict.move_to_end(key, last=False)`, which needs the key to be present. */
  function MoveToFront(ts: TraceState, key: string): (r: TraceState)
    requires HasKey(ts, key)
  {
    [(key, Get(ts, key).value)] + Remove(ts, key)
  }

  // ---------------------------------------------------------------------
  // Serialisation

  function MemberString(m: Member): string {
    m.0 + "=" + m.1
  }

  /** `TraceState.to_header`: the members as `key=value`, joined by `,`. */
  function ToHeader(ts: TraceState): (s: string)
  {
    if ts == [] then ""
    else if |ts| == 1 then MemberString(ts[0])
    else MemberString(ts[0]) + "," + ToHeader(ts[1..])
  }

  /** Python's `s.split(sep)`: the pieces between separators, always at least one. */
  function Split(s: string, sep: char): (pieces: seq<string>)
    ensures |pieces| >= 1
  {
    if s == [] then [""]
    else if s[0] == sep then [""] + Split(s[1..], sep)
    else
      var rest := Split(s[1..], sep);
      [[s[0]] + rest[0]] + rest[1..]
  }

  /** Index of the first occurrence of `c`, if any. */
  function IndexOf(s: string, c: char): (r: Option<nat>)
    ensures r.Some? ==> r.value < |s| && s[r.value] == c
    ensures r.Some? ==> forall i :: 0 <= i < r.value ==> s[i] != c
    ensures r.None? ==> forall i :: 0 <= i < |s| ==> s[i] != c
  {
    if s == [] then None
    else if s[0] == c then Some(0)
    else match IndexOf(s[1..], c)
      case None => None
      case Some(i) => Some(i + 1)
  }

  /** One `key=value` member, split at its first `=`; key and value must be non-empty. */
  function ParseMember(piece: string): (r: Option<Member>)
  {
    match IndexOf(piece, '=')
    case None => None
    case Some(i) =>
      if i == 0 || i == |piece| - 1 then None
      else Some((piece[..i], piece[i + 1..]))
  }

  /**
   * Reads the pieces in order after `acc`; an empty piece is skipped, and a
   * malformed member or a repeated key makes the whole header unreadable.
   */
  function ParseMembers(pieces: seq<string>, acc: TraceState): (r: Option<TraceState>)
    decreases |pieces|
  {
    if pieces == [] then Some(acc)
    else if pieces[0] == "" then ParseMembers(pieces[1..], acc)
    else match ParseMember(pieces[0])
      case None => None
      case Some(m) =>
        if HasKey(acc, m.0) then None else ParseMembers(pieces[1..], acc + [m])
  }

  /**
   * Reads each header of the list in turn, continuing the members read so
   * far; a malformed member or a key repeated anywhere makes the whole list
   * unreadable.
   */
  function ParseHeaders(headers: seq<string>, acc: TraceState): (r: Option<TraceState>)
    decreases |headers|
  {
    if headers == [] then Some(acc)
    else match ParseMembers(Split(headers[0], ','), acc)
      case None => None
      case Some(next) => ParseHeaders(headers[1..], next)
  }

  /**
   * `TraceState.from_header(header_list)`: the members of all the headers in
   * order, or the empty list when any member is malformed or a key repeats.
   */
  function FromHeaderList(headers: seq<string>): (ts: TraceState)
  {
    match ParseHeaders(headers, [])
    case None => []
    case Some(ts) => ts
  }

  /** What Python's iteration over a `str` yields: each character as a one-character string. */
  function Characters(s: string): (cs: seq<string>)
    ensures |cs| == |s| && forall i :: 0 <= i < |s| ==> cs[i] == [s[i]]
  {
    seq(|s|, i requires 0 <= i < |s| => [s[i]])
  }

  /** The members a header can carry and read back unchanged. */
  predicate WellFormedMember(m: Member) {
    && m.0 != "" && m.1 != ""
    && (forall i :: 0 <= i < |m.0| ==> m.0[i] != ',' && m.0[i] != '=')
    && (forall i :: 0 <= i < |m.1| ==> m.1[i] != ',')
  }

  predicate WellFormed(ts: TraceState) {
    UniqueKeys(ts) && forall i :: 0 <= i < |ts| ==> WellFormedMember(ts[i])
  }

  // ---------------------------------------------------------------------
  // Lemmas about the list operations

  lemma {:induction false} GetIndex(ts: TraceState, key: string)
    requires HasKey(ts, key)
    ensures exists i :: 0 <= i < |ts| && ts[i] == (key, Get(ts, key).value)
  {
    if ts[0].0 != key {
      GetIndex(ts[1..], key);
      var i :| 0 <= i < |ts[1..]| && ts[1..][i] == (key, Get(ts, key).value);
      assert ts[i + 1] == ts[1..][i];
    }
  }

  /** A key is present exactly when some member carries it; with unique keys, `Get` finds that member. */
  lemma {:induction false} GetAt(ts: TraceState, i: nat)
    requires UniqueKeys(ts) && i < |ts|
    ensures Get(ts, ts[i].0) == Some(ts[i].1)
  {
    if i > 0 {
      assert UniqueKeys(ts[1..]) by {
        forall a, b | 0 <= a < b < |ts[1..]| ensures ts[1..][a].0 != ts[1..][b].0 {
          assert ts[1..][a] == ts[a + 1] && ts[1..][b] == ts[b + 1];
        }
      }
      GetAt(ts[1..], i - 1);
      assert ts[1..][i - 1] == ts[i];
    }
  }

  lemma {:induction false} NotHasKey(ts: TraceState, key: string)
    requires !HasKey(ts, key)
    ensures forall i :: 0 <= i < |ts| ==> ts[i].0 != key
  {
    if ts != [] {
      NotHasKey(ts[1..], key);
      forall i | 1 <= i < |ts| ensures ts[i].0 != key {
        assert ts[i] == ts[1..][i - 1];
      }
    }
  }

  lemma {:induction false} AbsentKey(ts: TraceState, key: string)
    requires forall i :: 0 <= i < |ts| ==> ts[i].0 != key
    ensures !HasKey(ts, key)
  {
    if ts != [] {
      assert forall i :: 0 <= i < |ts[1..]| ==> ts[1..][i] == ts[i + 1];
      AbsentKey(ts[1..], key);
    }
  }

  lemma {:induction false} RemoveAbsent(ts: TraceState, key: string)
    requires !HasKey(ts, key)
    ensures Remove(ts, key) == ts
  {
    if ts != [] {
      RemoveAbsent(ts[1..], key);
    }
  }

  /** `Remove` drops exactly the members with `key` and keeps every other member in order. */
  lemma {:induction false} RemoveGet(ts: TraceState, key: string, other: string)
    ensures Get(Remove(ts, key), other) == if other == key then None else Get(ts, other)
  {
    if ts != [] {
      RemoveGet(ts[1..], key, other);
    }
  }

  lemma {:induction false} RemoveMembers(ts: TraceState, key: string)
    ensures forall m :: m in Remove(ts, key) <==> m in ts && m.0 != key
    ensures |Remove(ts, key)| <= |ts|
  {
    if ts != [] {
      RemoveMembers(ts[1..], key);
      assert forall m :: m in ts <==> m == ts[0] || m in ts[1..];
    }
  }

  lemma {:induction false} RemoveUnique(ts: TraceState, key: string)
    requires UniqueKeys(ts)
    ensures UniqueKeys(Remove(ts, key))
    ensures !HasKey(Remove(ts, key), key)
  {
    RemoveGet(ts, key, key);
    if ts != [] {
      assert UniqueKeys(ts[1..]) by {
        forall a, b | 0 <= a < b < |ts[1..]| ensures ts[1..][a].0 != ts[1..][b].0 {
          assert ts[1..][a] == ts[a + 1] && ts[1..][b] == ts[b + 1];
        }
      }
      RemoveUnique(ts[1..], key);
      RemoveMembers(ts[1..], key);
      if ts[0].0 != key {
        var r := [ts[0]] + Remove(ts[1..], key);
        forall b | 1 <= b < |r| ensures r[0].0 != r[b].0 {
          assert r[b] in Remove(ts[1..], key);
          assert r[b] in ts[1..];
          var j :| 0 <= j < |ts[1..]| && ts[1..][j] == r[b];
          assert ts[j + 1] == r[b];
        }
      }
    }
  }

  /**
   * With unique keys, removing the key at position `i` is cutting position
   * `i` out: the members before and after it keep their relative order.
   */
  lemma {:induction false} RemoveAt(ts: TraceState, i: nat)
    requires UniqueKeys(ts) && i < |ts|
    ensures Remove(ts, ts[i].0) == ts[..i] + ts[i + 1..]
  {
    var key := ts[i].0;
    if i == 0 {
      forall j | 0 <= j < |ts[1..]| ensures ts[1..][j].0 != key {
        assert ts[1..][j] == ts[j + 1];
      }
      AbsentKey(ts[1..], key);
      RemoveAbsent(ts[1..], key);
    } else {
      assert UniqueKeys(ts[1..]) by {
        forall a, b | 0 <= a < b < |ts[1..]| ensures ts[1..][a].0 != ts[1..][b].0 {
          assert ts[1..][a] == ts[a + 1] && ts[1..][b] == ts[b + 1];
        }
      }
      assert ts[1..][i - 1] == ts[i];
      RemoveAt(ts[1..], i - 1);
      assert ts[0].0 != key;
      assert ts[..i] == [ts[0]] + ts[1..][..i - 1];
      assert ts[i + 1..] == ts[1..][i..];
    }
  }

  /** `Update` on a present key: it leads with the new value, the other members follow in order, and the size is kept. */
  lemma UpdatePresent(ts: TraceState, key: string, value: string)
    requires UniqueKeys(ts) && HasKey(ts, key)
    ensures var r := Update(ts, key, value);
      && r[0] == (key, value)
      && r[1..] == Remove(ts, key)
      && |r| == |ts|
      && UniqueKeys(r)
      && forall other :: other != key ==> Get(r, other) == Get(ts, other)
  {
    GetIndex(ts, key);
    var i :| 0 <= i < |ts| && ts[i] == (key, Get(ts, key).value);
    RemoveAt(ts, i);
    UniqueAfterFront(ts, key, value);
    forall other | other != key ensures Get(Update(ts, key, value), other) == Get(ts, other) {
      RemoveGet(ts, key, other);
    }
  }

  lemma UniqueAfterFront(ts: TraceState, key: string, value: string)
    requires UniqueKeys(ts)
    ensures UniqueKeys([(key, value)] + Remove(ts, key))
  {
    RemoveUnique(ts, key);
    RemoveMembers(ts, key);
    var r := [(key, value)] + Remove(ts, key);
    forall b | 1 <= b < |r| ensures r[0].0 != r[b].0 {
      assert r[b] in Remove(ts, key);
    }
  }

  /** `Add` on an absent key puts the member in front of the unchanged list. */
  lemma AddAbsent(ts: TraceState, key: string, value: string)
    requires UniqueKeys(ts) && !HasKey(ts, key)
    ensures var r := Add(ts, key, value);
      r[0] == (key, value) && r[1..] == ts && UniqueKeys(r)
  {
    NotHasKey(ts, key);
  }

  lemma {:induction false} SetValueGet(ts: TraceState, key: string, value: string, other: string)
    ensures Get(SetValue(ts, key, value), other) == if other == key then Some(value) else Get(ts, other)
  {
    if ts != [] && ts[0].0 != key {
      SetValueGet(ts[1..], key, value, other);
    }
  }

  lemma {:induction false} SetValueRemove(ts: TraceState, key: string, value: string)
    requires HasKey(ts, key)
    ensures Remove(SetValue(ts, key, value), key) == Remove(ts, key)
  {
    if ts[0].0 == key {
      // both sides drop the head and then remove from the same tail
    } else {
      SetValueRemove(ts[1..], key, value);
    }
  }

  /**
   * The propagator's hand-written update: assigning to the existing key and
   * then moving it to the front is exactly `TraceState.update`.
   */
  lemma {:induction false} OrderedDictUpdateIsUpdate(ts: TraceState, key: string, value: string)
    requires HasKey(ts, key)
    ensures HasKey(SetValue(ts, key, value), key)
    ensures MoveToFront(SetValue(ts, key, value), key) == Update(ts, key, value)
  {
    SetValueGet(ts, key, value, key);
    SetValueRemove(ts, key, value);
  }

  // ---------------------------------------------------------------------
  // Lemmas about serialisation

  lemma {:induction false} SplitNoSep(a: string, sep: char)
    requires forall i :: 0 <= i < |a| ==> a[i] != sep
    ensures Split(a, sep) == [a]
  {
    if a != [] {
      SplitNoSep(a[1..], sep);
      assert [a[0]] + a[1..] == a;
    }
  }

  lemma {:induction false} SplitSep(a: string, sep: char, b: string)
    requires forall i :: 0 <= i < |a| ==> a[i] != sep
    ensures Split(a + [sep] + b, sep) == [a] + Split(b, sep)
  {
    if a == [] {
      assert a + [sep] + b == [sep] + b;
    } else {
      var s := a + [sep] + b;
      assert s[0] == a[0] && s[1..] == a[1..] + [sep] + b;
      SplitSep(a[1..], sep, b);
      assert [a[0]] + a[1..] == a;
    }
  }

  lemma MemberStringFacts(m: Member)
    requires WellFormedMember(m)
    ensures forall i :: 0 <= i < |MemberString(m)| ==> MemberString(m)[i] != ','
    ensures ParseMember(MemberString(m)) == Some(m)
  {
    var s := MemberString(m);
    assert forall i :: 0 <= i < |m.0| ==> s[i] == m.0[i];
    assert s[|m.0|] == '=';
    assert IndexOf(s, '=') == Some(|m.0|);
    assert s[..|m.0|] == m.0 && s[|m.0| + 1..] == m.1;
  }

  lemma {:induction false} SplitHeader(ts: TraceState)
    requires ts != [] && forall i :: 0 <= i < |ts| ==> WellFormedMember(ts[i])
    ensures Split(ToHeader(ts), ',') == seq(|ts|, i requires 0 <= i < |ts| => MemberString(ts[i]))
  {
    MemberStringFacts(ts[0]);
    if |ts| == 1 {
      SplitNoSep(MemberString(ts[0]), ',');
    } else {
      SplitHeader(ts[1..]);
      SplitSep(MemberString(ts[0]), ',', ToHeader(ts[1..]));
    }
  }

  lemma {:induction false} ParseMemberStrings(ts: TraceState, acc: TraceState)
    requires WellFormed(acc + ts)
    ensures ParseMembers(seq(|ts|, i requires 0 <= i < |ts| => MemberString(ts[i])), acc) == Some(acc + ts)
    decreases |ts|
  {
    var pieces := seq(|ts|, i requires 0 <= i < |ts| => MemberString(ts[i]));
    if ts == [] {
      assert acc + ts == acc;
    } else {
      var all := acc + ts;
      assert all[|acc|] == ts[0];
      MemberStringFacts(ts[0]);
      assert pieces[0] != "";
      forall j | 0 <= j < |acc| ensures acc[j].0 != ts[0].0 {
        assert all[j] == acc[j];
      }
      AbsentKey(acc, ts[0].0);
      assert pieces[1..] == seq(|ts[1..]|, i requires 0 <= i < |ts[1..]| => MemberString(ts[1..][i]));
      assert (acc + [ts[0]]) + ts[1..] == all;
      ParseMemberStrings(ts[1..], acc + [ts[0]]);
    }
  }

  /** Reading back a serialised, well-formed trace state, as a one-header list, gives the same members in the same order. */
  lemma HeaderRoundTrip(ts: TraceState)
    requires WellFormed(ts)
    ensures FromHeaderList([ToHeader(ts)]) == ts
  {
    if ts == [] {
      assert Split("", ',') == [""];
    } else {
      SplitHeader(ts);
      assert [] + ts == ts;
      ParseMemberStrings(ts, []);
    }
    assert ParseMembers(Split(ToHeader(ts), ','), []) == Some(ts);
    assert [ToHeader(ts)][1..] == [];
    assert ParseHeaders([ToHeader(ts)], []) == ParseHeaders([], ts);
  }

  /**
   * A list of one-character headers never yields a member: a `,` is two
   * empty members, and any other character is a member without a key and a
   * value. The list is rejected outright unless it holds commas only.
   */
  lemma {:induction false} OneCharacterHeaders(headers: seq<string>)
    requires forall i :: 0 <= i < |headers| ==> |headers[i]| == 1
    ensures ParseHeaders(headers, []) == (if forall i :: 0 <= i < |headers| ==> headers[i] == "," then Some([]) else None)
    decreases |headers|
  {
    if headers != [] {
      var h := headers[0];
      assert h == [h[0]];
      if h[0] == ',' {
        assert Split(h, ',') == ["", ""];
        assert ParseMembers(["", ""], []) == Some([]);
        OneCharacterHeaders(headers[1..]);
        if forall i :: 0 <= i < |headers[1..]| ==> headers[1..][i] == "," {
          assert forall i :: 0 <= i < |headers| ==> headers[i] == "," by {
            forall i | 0 <= i < |headers| ensures headers[i] == "," {
              if i > 0 {
                assert headers[i] == headers[1..][i - 1];
              }
            }
          }
        } else {
          var j :| 0 <= j < |headers[1..]| && headers[1..][j] != ",";
          assert headers[j + 1] != ",";
        }
      } else {
        assert h[1..] == [] && Split(h[1..], ',') == [""] && [h[0]] + "" == h;
        assert Split(h, ',') == [h];
        assert ParseMember(h) == None;
        assert headers[0] != ",";
      }
    }
  }

  /** `from_header` given a `str` instead of a list reads it character by character, and always yields the empty list. */
  lemma StringAsHeaderList(s: string)
    ensures FromHeaderList(Characters(s)) == []
  {
    OneCharacterHeaders(Characters(s));
  }

  // ---------------------------------------------------------------------
  // The mutable ordered dictionary of the propagator's workaround

  /** A Python `OrderedDict` of trace-state members, changed in place. */
  class MemberList {
    var items: TraceState

    /** `OrderedDict(trace_state.items())` */
    constructor (ts: TraceState)
      ensures items == ts
    {
      items := ts;
    }

    /** `prev_state[key] = value` */
    method Assign(key: string, value: string)
      modifies this
      ensures items == SetValue(old(items), key, value)
      ensures Get(items, key) == Some(value)
      ensures forall other :: other != key ==> Get(items, other) == Get(old(items), other)
    {
      SetValueGet(items, key, value, key);
      forall other | other != key ensures Get(SetValue(items, key, value), other) == Get(items, other) {
        SetValueGet(items, key, value, other);
      }
      items := SetValue(items, key, value);
    }

    /** `prev_state.move_to_end(key, last=False)` */
    method MoveToEndFirst(key: string)
      requires HasKey(items, key)
      modifies this
      ensures items == MoveToFront(old(items), key)
      ensures items[0] == (key, Get(old(items), key).value) && items[1..] == Remove(old(items), key)
    {
      items := MoveToFront(items, key);
    }
  }
}
