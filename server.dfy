/**
  The device side (EWBServer/EWBServer.cpp): a fixed table of typed variables
  that a client patches with a JSON document `{"set": {name: value, ...}}` and
  reads back as one JSON object, plus the one-byte stream-control command.

  JSON documents are modelled as maps from member names to values; parsing
  and serialisation belong to the JSON library and are not modelled. C strings
  are modelled as character buffers whose value ends at the first NUL.
*/
module EwbServer {
  import opened EwbBytes

  type int32 = x: int | -0x8000_0000 <= x < 0x8000_0000

  datatype Option<T> = None | Some(value: T)

  /** A JSON value as the JSON library hands it over; JOther stands for
      null, booleans and arrays. Float payloads are kept as raw bits. */
  datatype Json =
    | JInt(i: int32)
    | JStr(s: string)
    | JFloat(bits: bv32)
    | JObject(members: map<string, Json>)
    | JOther

  /** A parsed JSON document: its top-level object. */
  type Doc = map<string, Json>

  datatype VarType = TypeInt | TypeFloat | TypeString

  /** One entry of the application's variable table. stringValue is the whole
      fixed-size character buffer, so its length is the buffer's size. */
  datatype VarConfig = VarConfig(
    name: string,
    vtype: VarType,
    intValue: int32,
    floatValue: bv32,
    stringValue: seq<char>,
    useLimits: bool,
    min: int32,
    max: int32)

  // ---------------------------------------------------------------------
  // Conversions and C-string helpers

  /** Arduino's constrain(x, lo, hi). */
  function Constrain(x: int32, lo: int32, hi: int32): (r: int32)
    ensures lo <= hi ==> lo <= r <= hi
    ensures lo <= x <= hi ==> r == x
    ensures r == x || r == lo || r == hi
  {
    if x < lo then lo else if x > hi then hi else x
  }

  /** The integer the JSON library reads from a value (0 when it is not one). */
  function AsInt(v: Json): (r: int32)
    ensures v.JInt? ==> r == v.i
    ensures !v.JInt? ==> r == 0
  {
    if v.JInt? then v.i else 0
  }

  const Nul: char := '\0'

  /** The C string held in a buffer: everything before the first NUL. */
  function CStr(buf: seq<char>): (r: string)
    ensures |r| <= |buf| && r == buf[..|r|]
    ensures Nul !in r
    ensures |r| < |buf| ==> buf[|r|] == Nul
  {
    if buf == [] || buf[0] == Nul then [] else [buf[0]] + CStr(buf[1..])
  }

  /** A buffer has exactly one C string: the NUL-free prefix before a NUL. */
  lemma CStrUnique(buf: seq<char>, t: string)
    requires |t| < |buf| && t == buf[..|t|] && Nul !in t && buf[|t|] == Nul
    ensures CStr(buf) == t
  {
    if t != [] {
      assert buf[0] == t[0];
      assert t[1..] == buf[1..][..|t| - 1];
      CStrUnique(buf[1..], t[1..]);
    }
  }

  /** A buffer whose last slot is NUL holds at most size-1 characters. */
  lemma CStrFits(buf: seq<char>)
    requires |buf| >= 1 && buf[|buf| - 1] == Nul
    ensures |CStr(buf)| <= |buf| - 1
  {
    if buf[0] != Nul {
      CStrFits(buf[1..]);
    }
  }

  /** The first n characters of s (all of s when it is shorter). */
  function Take(s: string, n: nat): (r: string)
    ensures |r| <= n && |r| <= |s| && r == s[..|r|]
    ensures |s| <= n ==> r == s
    ensures n <= |s| ==> |r| == n
  {
    if n < |s| then s[..n] else s
  }

  /** k NUL characters: strncpy's padding. */
  function Nuls(k: nat): (r: seq<char>)
    ensures |r| == k
  {
    if k == 0 then [] else [Nul] + Nuls(k - 1)
  }

  /** strncmp(a, b, n) == 0: equal C strings always compare equal, and so
      does everything over zero characters. */
  predicate StrnEqual(a: seq<char>, b: seq<char>, n: nat): (r: bool)
    ensures CStr(a) == CStr(b) ==> r
    ensures n == 0 ==> r
  {
    Take(CStr(a), n) == Take(CStr(b), n)
  }

  /** strncpy(dst, src, n): the first n slots receive src's C string,
      padded with NULs; the rest of dst is untouched. */
  function Strncpy(dst: seq<char>, src: seq<char>, n: nat): (r: seq<char>)
    requires n <= |dst|
    ensures |r| == |dst| && r[n..] == dst[n..]
  {
    var s := Take(CStr(src), n);
    s + Nuls(n - |s|) + dst[n..]
  }

  /** strncpy into all but the last slot, then NUL into the last slot. */
  function StoreString(buf: seq<char>, s: seq<char>): (r: seq<char>)
    requires |buf| >= 1
    ensures |r| == |buf| && r[|buf| - 1] == Nul
    ensures CStr(r) == Take(CStr(s), |buf| - 1)
  {
    var n := |buf| - 1;
    var r := Strncpy(buf, s, n)[n := Nul];
    var t := Take(CStr(s), n);
    assert r == t + Nuls(n - |t|) + [Nul];
    CStrUnique(r, t);
    r
  }

  /** Whether a set must overwrite the buffer: the intended test compares the
      stored string with what would be stored, i.e. the first size-1 characters. */
  predicate StringChanged(buf: seq<char>, s: seq<char>)
    requires |buf| >= 1
  {
    !StrnEqual(buf, s, |buf| - 1)
  }

  /** The corrected test holds exactly when storing the value changes the
      buffer's C string. */
  lemma StringChangedMeans(buf: seq<char>, s: seq<char>)
    requires |buf| >= 1 && buf[|buf| - 1] == Nul
    ensures StringChanged(buf, s) <==> CStr(StoreString(buf, s)) != CStr(buf)
  {
    CStrFits(buf);
  }

  /** The test as written only misfires on the callback: on a NUL-terminated
      buffer it leaves exactly the bytes the corrected test leaves. */
  lemma AsWrittenStoresSame(buf: seq<char>, s: seq<char>)
    requires |buf| >= 1 && buf[|buf| - 1] == Nul
    ensures (if StringChangedAsWritten(buf, s) then StoreString(buf, s) else buf)
         == (if StringChanged(buf, s) then StoreString(buf, s) else buf)
  {
    if StringChangedAsWritten(buf, s) && !StringChanged(buf, s) {
      var n := |buf| - 1;
      CStrFits(buf);
      assert CStr(buf) == Take(CStr(s), n);
      assert CStr(buf) != Take(CStr(s), n + 1);
      FullBufferStoresSame(buf, s);
    }
  }

  /** A buffer filled up to its final NUL by a prefix of s is stored again unchanged. */
  lemma FullBufferStoresSame(buf: seq<char>, s: seq<char>)
    requires |buf| >= 1 && |CStr(buf)| == |buf| - 1 && CStr(buf) == Take(CStr(s), |buf| - 1)
    ensures StoreString(buf, s) == buf
  {
    var n := |buf| - 1;
    var r := StoreString(buf, s);
    assert buf == CStr(buf) + [buf[n]];
    assert r == CStr(r) + [r[n]];
  }

  /** The test as written in handleJsonSet: strncmp over the whole buffer size.
      It never misses a change of the stored string, but may report one that
      does not happen. */
  predicate StringChangedAsWritten(buf: seq<char>, s: seq<char>): (r: bool)
    ensures |buf| >= 1 && StringChanged(buf, s) ==> r
  {
    var stored := if |buf| >= 1 then |buf| - 1 else 0;
    TakeShorter(CStr(buf), stored, |buf|);
    TakeShorter(CStr(s), stored, |buf|);
    !StrnEqual(buf, s, |buf|)
  }

  /** Taking m characters after taking n >= m is taking m. */
  lemma TakeShorter(x: string, m: nat, n: nat)
    requires m <= n
    ensures Take(Take(x, n), m) == Take(x, m)
  {
  }

  /** A buffer of size 4 holding "abc" and the patch "abcd": the test as
      written reports a change, yet the stored string stays "abc". */
  lemma AsWrittenFiresWithoutChange()
    ensures var buf := ['a', 'b', 'c', Nul];
      && StringChangedAsWritten(buf, "abcd")
      && CStr(StoreString(buf, "abcd")) == CStr(buf)
      && !StringChanged(buf, "abcd")
  {
    var buf := ['a', 'b', 'c', Nul];
    CStrUnique(buf, "abc");
    CStrUnique("abcd" + [Nul], "abcd");
    assert CStr("abcd") == "abcd";
    assert Take("abcd", 4) == "abcd";
    assert Take("abc", 4) == "abc";
  }

  // ---------------------------------------------------------------------
  // The variable table

  /** A string variable's buffer exists and its last slot holds the
      terminating NUL; the buffers of other variables are never read. */
  predicate WellFormed(v: VarConfig) {
    v.vtype == TypeString ==> |v.stringValue| >= 1 && v.stringValue[|v.stringValue| - 1] == Nul
  }

  predicate TableWellFormed(t: seq<VarConfig>) {
    forall i :: 0 <= i < |t| ==> WellFormed(t[i])
  }

  /** The value a variable reports in the JSON state. */
  function ValueOf(v: VarConfig): (r: Json)
    ensures r.JInt? <==> v.vtype == TypeInt
    ensures r.JStr? <==> v.vtype == TypeString
    ensures r.JStr? ==> Nul !in r.s && |r.s| <= |v.stringValue|
  {
    match v.vtype
    case TypeInt => JInt(v.intValue)
    case TypeFloat => JFloat(v.floatValue)
    case TypeString => JStr(CStr(v.stringValue))
  }

  datatype VarUpdate = VarUpdate(after: VarConfig, changed: bool)

  /** One iteration of handleJsonSet's loop, for one variable. */
  function ApplyVar(v: VarConfig, setObject: map<string, Json>): (u: VarUpdate)
    requires WellFormed(v)
    ensures u.after.name == v.name && u.after.vtype == v.vtype
    ensures !u.changed ==> u.after == v
    ensures v.name !in setObject || v.vtype == TypeFloat ==> u == VarUpdate(v, false)
  {
    if v.name !in setObject then VarUpdate(v, false)
    else
      var val := setObject[v.name];
      match v.vtype
      case TypeInt =>
        var newValue := if v.useLimits then Constrain(AsInt(val), v.min, v.max) else AsInt(val);
        if v.intValue != newValue then VarUpdate(v.(intValue := newValue), true)
        else VarUpdate(v, false)
      case TypeFloat => VarUpdate(v, false)
      case TypeString =>
        if val.JStr? && StringChanged(v.stringValue, val.s)
        then VarUpdate(v.(stringValue := StoreString(v.stringValue, val.s)), true)
        else VarUpdate(v, false)
  }

  /** The change flag is raised exactly when the reported value changes, the
      entry stays well formed, and only the value of its own type is touched. */
  lemma ApplyVarChanged(v: VarConfig, setObject: map<string, Json>)
    requires WellFormed(v)
    ensures var u := ApplyVar(v, setObject);
      && WellFormed(u.after)
      && (u.changed <==> ValueOf(u.after) != ValueOf(v))
      && (!u.changed ==> u.after == v)
      && u.after.name == v.name && u.after.vtype == v.vtype
  {
    var u := ApplyVar(v, setObject);
    if v.name in setObject && v.vtype == TypeString {
      var val := setObject[v.name];
      if val.JStr? {
        var n := |v.stringValue| - 1;
        CStrFits(v.stringValue);
        assert Take(CStr(v.stringValue), n) == CStr(v.stringValue);
        assert Take(Take(CStr(val.s), n), n) == Take(CStr(val.s), n);
      }
    }
  }

  datatype SetResult = SetResult(table: seq<VarConfig>, changed: seq<string>)

  /** handleJsonSet's loop over the table with the `set` object: the new
      table and the names whose change flag was raised, in table order. */
  function ApplyObject(t: seq<VarConfig>, setObject: map<string, Json>): (r: SetResult)
    requires TableWellFormed(t)
    ensures |r.table| == |t| && |r.changed| <= |t|
  {
    if t == [] then SetResult([], [])
    else
      var r := ApplyObject(t[..|t| - 1], setObject);
      var u := ApplyVar(t[|t| - 1], setObject);
      SetResult(r.table + [u.after], r.changed + if u.changed then [t[|t| - 1].name] else [])
  }

  /** ApplyObject on one more entry of t. */
  lemma ApplyObjectSnoc(t: seq<VarConfig>, i: nat, setObject: map<string, Json>)
    requires TableWellFormed(t) && i < |t|
    ensures var r, u := ApplyObject(t[..i], setObject), ApplyVar(t[i], setObject);
      ApplyObject(t[..i + 1], setObject)
        == SetResult(r.table + [u.after], r.changed + if u.changed then [t[i].name] else [])
  {
    assert t[..i + 1][..i] == t[..i];
  }

  /** The names handleJsonSet's loop has reported after its first i turns. */
  ghost function ChangedBefore(t: seq<VarConfig>, i: nat, setObject: map<string, Json>): seq<string>
    requires TableWellFormed(t) && i <= |t|
  {
    ApplyObject(t[..i], setObject).changed
  }

  /** What one turn of handleJsonSet's loop contributes: entry i of the
      result, and the name it appends to the changed list when it changes. */
  lemma EntryUpdate(t: seq<VarConfig>, i: nat, setObject: map<string, Json>,
                    after: VarConfig, changed: bool)
    requires TableWellFormed(t) && i < |t|
    requires VarUpdate(after, changed) == ApplyVar(t[i], setObject)
    ensures (if changed then after else t[i]) == ApplyObject(t, setObject).table[i]
    ensures ApplyObject(t[..i + 1], setObject).changed
         == ApplyObject(t[..i], setObject).changed + if changed then [t[i].name] else []
  {
    ApplyVarChanged(t[i], setObject);
    ApplyObjectPointwise(t, setObject);
    ApplyObjectSnoc(t, i, setObject);
  }

  /** `doc["set"]` converts to a non-null JsonObject. */
  predicate HasSetObject(doc: Doc): (r: bool)
    ensures r ==> "set" in doc
  {
    "set" in doc && doc["set"].JObject?
  }

  /** handleJsonSet: a document without a `set` object changes nothing. */
  function ApplySet(t: seq<VarConfig>, doc: Doc): (r: SetResult)
    requires TableWellFormed(t)
    ensures |r.table| == |t| && |r.changed| <= |t|
    ensures !HasSetObject(doc) ==> r == SetResult(t, [])
  {
    if HasSetObject(doc) then ApplyObject(t, doc["set"].members) else SetResult(t, [])
  }

  lemma {:induction false} ApplyObjectPointwise(t: seq<VarConfig>, setObject: map<string, Json>)
    requires TableWellFormed(t)
    ensures |ApplyObject(t, setObject).table| == |t|
    ensures forall i :: 0 <= i < |t| ==>
      ApplyObject(t, setObject).table[i] == ApplyVar(t[i], setObject).after
  {
    if t != [] {
      ApplyObjectPointwise(t[..|t| - 1], setObject);
    }
  }

  /** Each entry of the table after a set is that entry's own update. */
  lemma ApplySetPointwise(t: seq<VarConfig>, doc: Doc, i: nat)
    requires TableWellFormed(t) && i < |t|
    ensures |ApplySet(t, doc).table| == |t|
    ensures ApplySet(t, doc).table[i]
         == if HasSetObject(doc) then ApplyVar(t[i], doc["set"].members).after else t[i]
  {
    if HasSetObject(doc) {
      ApplyObjectPointwise(t, doc["set"].members);
    }
  }

  /** Variables a set never modifies: all of them without a `set` object,
      those not named in it, and every float variable. */
  lemma SetLeavesOthersAlone(t: seq<VarConfig>, doc: Doc, i: nat)
    requires TableWellFormed(t) && i < |t|
    requires !HasSetObject(doc) || t[i].name !in doc["set"].members || t[i].vtype == TypeFloat
    ensures ApplySet(t, doc).table[i] == t[i]
  {
    ApplySetPointwise(t, doc, i);
  }

  /** An integer variable named in the patch takes the patched value,
      constrained to [min, max] when it uses limits. */
  lemma SetIntClamped(t: seq<VarConfig>, doc: Doc, i: nat)
    requires TableWellFormed(t) && i < |t| && HasSetObject(doc)
    requires t[i].vtype == TypeInt && t[i].name in doc["set"].members
    ensures var v, x := t[i], AsInt(doc["set"].members[t[i].name]);
      ApplySet(t, doc).table[i]
        == v.(intValue := if v.useLimits then Constrain(x, v.min, v.max) else x)
    ensures t[i].useLimits && t[i].min <= t[i].max ==>
      t[i].min <= ApplySet(t, doc).table[i].intValue <= t[i].max
  {
    ApplySetPointwise(t, doc, i);
  }

  /** A string variable named in the patch with a string value holds the
      first size-1 characters of it, and the last buffer slot stays NUL. */
  lemma SetStringTruncated(t: seq<VarConfig>, doc: Doc, i: nat)
    requires TableWellFormed(t) && i < |t| && HasSetObject(doc)
    requires t[i].vtype == TypeString && t[i].name in doc["set"].members
    requires doc["set"].members[t[i].name].JStr?
    ensures var after := ApplySet(t, doc).table[i];
      && |after.stringValue| == |t[i].stringValue|
      && CStr(after.stringValue)
         == Take(CStr(doc["set"].members[t[i].name].s), |t[i].stringValue| - 1)
      && after.stringValue[|after.stringValue| - 1] == Nul
  {
    var obj := doc["set"].members;
    ApplySetPointwise(t, doc, i);
    assert ApplySet(t, doc).table[i] == ApplyVar(t[i], obj).after;
    VarStringTruncated(t[i], obj);
  }

  lemma VarStringTruncated(v: VarConfig, setObject: map<string, Json>)
    requires WellFormed(v) && v.vtype == TypeString
    requires v.name in setObject && setObject[v.name].JStr?
    ensures var after := ApplyVar(v, setObject).after.stringValue;
      && |after| == |v.stringValue|
      && CStr(after) == Take(CStr(setObject[v.name].s), |v.stringValue| - 1)
      && after[|after| - 1] == Nul
  {
    var s := setObject[v.name].s;
    assert ApplyVar(v, setObject).after.stringValue
        == if StringChanged(v.stringValue, s) then StoreString(v.stringValue, s) else v.stringValue;
    StringSettles(v.stringValue, s);
  }

  /** Whether or not the store happens, a well-formed buffer ends up holding
      the first size-1 characters of the patch value. */
  lemma StringSettles(buf: seq<char>, s: seq<char>)
    requires |buf| >= 1 && buf[|buf| - 1] == Nul
    ensures var after := if StringChanged(buf, s) then StoreString(buf, s) else buf;
      && |after| == |buf|
      && CStr(after) == Take(CStr(s), |buf| - 1)
      && after[|after| - 1] == Nul
  {
    if !StringChanged(buf, s) {
      CStrFits(buf);
    }
  }

  lemma {:induction false} SetPreservesWellFormed(t: seq<VarConfig>, setObject: map<string, Json>)
    requires TableWellFormed(t)
    ensures TableWellFormed(ApplyObject(t, setObject).table)
  {
    ApplyObjectPointwise(t, setObject);
    forall i | 0 <= i < |t|
      ensures WellFormed(ApplyObject(t, setObject).table[i])
    {
      ApplyVarChanged(t[i], setObject);
    }
  }

  /** Names of the entries whose reported value differs between two tables. */
  function ChangedNames(before: seq<VarConfig>, after: seq<VarConfig>): seq<string>
    requires |before| == |after|
  {
    if before == [] then []
    else
      var n := |before| - 1;
      ChangedNames(before[..n], after[..n])
        + if ValueOf(after[n]) != ValueOf(before[n]) then [before[n].name] else []
  }

  /** The change callback fires exactly for the variables whose value
      actually changed, once each, in table order. */
  lemma {:induction false} FiredExactlyChanged(t: seq<VarConfig>, setObject: map<string, Json>)
    requires TableWellFormed(t)
    ensures |ApplyObject(t, setObject).table| == |t|
    ensures ApplyObject(t, setObject).changed == ChangedNames(t, ApplyObject(t, setObject).table)
  {
    ApplyObjectPointwise(t, setObject);
    if t != [] {
      var n := |t| - 1;
      var r := ApplyObject(t, setObject);
      FiredExactlyChanged(t[..n], setObject);
      ApplyVarChanged(t[n], setObject);
      assert r.table[..n] == ApplyObject(t[..n], setObject).table;
    }
  }

  /** Applying the same patch twice: the second time nothing changes and no
      callback fires. */
  lemma {:induction false} SetIdempotent(t: seq<VarConfig>, doc: Doc)
    requires TableWellFormed(t)
    ensures TableWellFormed(ApplySet(t, doc).table)
    ensures ApplySet(ApplySet(t, doc).table, doc) == SetResult(ApplySet(t, doc).table, [])
  {
    if HasSetObject(doc) {
      var obj := doc["set"].members;
      var once := ApplyObject(t, obj).table;
      SetPreservesWellFormed(t, obj);
      ApplyObjectPointwise(t, obj);
      forall i | 0 <= i < |once|
        ensures ApplyVar(once[i], obj) == VarUpdate(once[i], false)
      {
        ApplyVarTwice(t[i], obj);
      }
      NoChangeIsIdentity(once, obj);
    }
  }

  lemma ApplyVarTwice(v: VarConfig, setObject: map<string, Json>)
    requires WellFormed(v)
    ensures WellFormed(ApplyVar(v, setObject).after)
    ensures var w := ApplyVar(v, setObject).after; ApplyVar(w, setObject) == VarUpdate(w, false)
  {
    var w := ApplyVar(v, setObject).after;
    if v.name in setObject && v.vtype == TypeString && setObject[v.name].JStr? {
      var s := setObject[v.name].s;
      VarStringTruncated(v, setObject);
      var n := |v.stringValue| - 1;
      assert Take(Take(CStr(s), n), n) == Take(CStr(s), n);
      assert !StringChanged(w.stringValue, s);
    } else {
      ApplyVarChanged(v, setObject);
    }
  }

  /** When no entry would change, the loop leaves the table as it is. */
  lemma {:induction false} NoChangeIsIdentity(t: seq<VarConfig>, setObject: map<string, Json>)
    requires TableWellFormed(t)
    requires forall i :: 0 <= i < |t| ==> ApplyVar(t[i], setObject) == VarUpdate(t[i], false)
    ensures ApplyObject(t, setObject) == SetResult(t, [])
  {
    if t != [] {
      var n := |t| - 1;
      NoChangeIsIdentity(t[..n], setObject);
      assert t[..n] + [t[n]] == t;
    }
  }

  // ---------------------------------------------------------------------
  // The JSON state

  /** generateJsonState: one member per variable, later entries overwriting
      earlier ones of the same name. */
  function StateOf(t: seq<VarConfig>): (r: map<string, Json>)
    ensures |r| <= |t|
    ensures forall i :: 0 <= i < |t| ==> t[i].name in r
  {
    if t == [] then map[]
    else StateOf(t[..|t| - 1])[t[|t| - 1].name := ValueOf(t[|t| - 1])]
  }

  /** No later entry of t has the name of entry i. */
  predicate LastWithName(t: seq<VarConfig>, i: nat)
    requires i < |t|
  {
    forall j :: i < j < |t| ==> t[j].name != t[i].name
  }

  /** The state has exactly the table's names as keys. */
  lemma {:induction false} StateOfKeys(t: seq<VarConfig>)
    ensures forall i :: 0 <= i < |t| ==> t[i].name in StateOf(t)
    ensures forall k :: k in StateOf(t) ==> exists i :: 0 <= i < |t| && t[i].name == k
  {
    if t != [] {
      var n := |t| - 1;
      var p := t[..n];
      StateOfKeys(p);
      assert StateOf(t) == StateOf(p)[t[n].name := ValueOf(t[n])];
      forall k | k in StateOf(t)
        ensures exists i :: 0 <= i < |t| && t[i].name == k
      {
        if k != t[n].name {
          var i :| 0 <= i < |p| && p[i].name == k;
          assert t[i].name == k;
        }
      }
      forall i | 0 <= i < |t|
        ensures t[i].name in StateOf(t)
      {
        if i < n {
          assert p[i].name == t[i].name;
        }
      }
    }
  }

  /** Each name holds the value of the last variable with that name. */
  lemma {:induction false} StateOfLookup(t: seq<VarConfig>, i: nat)
    requires i < |t| && LastWithName(t, i)
    ensures t[i].name in StateOf(t) && StateOf(t)[t[i].name] == ValueOf(t[i])
  {
    var n := |t| - 1;
    var p := t[..n];
    assert StateOf(t) == StateOf(p)[t[n].name := ValueOf(t[n])];
    if i < n {
      assert t[n].name != t[i].name;
      assert LastWithName(p, i);
      StateOfLookup(p, i);
      assert p[i] == t[i];
    }
  }

  predicate DistinctNames(t: seq<VarConfig>) {
    forall i, j :: 0 <= i < j < |t| ==> t[i].name != t[j].name
  }

  /** A variable's stored value is one a set would keep. */
  predicate Settled(v: VarConfig) {
    v.vtype == TypeInt && v.useLimits ==> v.min <= v.intValue <= v.max
  }

  /** Round trip: writing back the state just read, as a `set` patch,
      changes nothing and fires no callback. */
  lemma SetOwnStateIsNoOp(t: seq<VarConfig>)
    requires TableWellFormed(t) && DistinctNames(t)
    requires forall i :: 0 <= i < |t| ==> Settled(t[i])
    ensures ApplySet(t, map["set" := JObject(StateOf(t))]) == SetResult(t, [])
  {
    var obj := StateOf(t);
    forall i | 0 <= i < |t|
      ensures ApplyVar(t[i], obj) == VarUpdate(t[i], false)
    {
      assert LastWithName(t, i);
      StateOfLookup(t, i);
      OwnValueIsNoOp(t[i], obj);
    }
    NoChangeIsIdentity(t, obj);
  }

  lemma OwnValueIsNoOp(v: VarConfig, setObject: map<string, Json>)
    requires WellFormed(v) && Settled(v)
    requires v.name in setObject && setObject[v.name] == ValueOf(v)
    ensures ApplyVar(v, setObject) == VarUpdate(v, false)
  {
    if v.vtype == TypeString {
      CStrFits(v.stringValue);
      assert CStr(CStr(v.stringValue)) == CStr(v.stringValue);
    }
  }

  // ---------------------------------------------------------------------
  // Characteristic write handlers

  datatype Command = Ignored | GetRequested | SetRequested(doc: Doc)

  /** JsonCharacteristicCallbacks::onWrite: an empty write or one that does
      not parse is ignored; `get` wins over `set`. parsed is the JSON
      library's result for value. */
  function Dispatch(value: string, parsed: Option<Doc>): (c: Command)
    ensures c != Ignored ==> |value| > 0 && parsed.Some?
    ensures c.SetRequested? ==> c.doc == parsed.value && "set" in c.doc && "get" !in c.doc
  {
    if |value| == 0 then Ignored
    else match parsed
      case None => Ignored
      case Some(doc) =>
        if "get" in doc then GetRequested
        else if "set" in doc then SetRequested(doc)
        else Ignored
  }

  /** The set handler runs exactly for a non-empty, parsed document that has
      `set` and no `get`. */
  lemma DispatchSpec(value: string, parsed: Option<Doc>)
    ensures Dispatch(value, parsed).SetRequested?
        <==> |value| > 0 && parsed.Some? && "get" !in parsed.value && "set" in parsed.value
    ensures Dispatch(value, parsed).GetRequested?
        <==> |value| > 0 && parsed.Some? && "get" in parsed.value
    ensures Dispatch(value, parsed).SetRequested? ==> Dispatch(value, parsed).doc == parsed.value
  {
  }

  datatype StreamAction = NoAction | StartStreaming | StopStreaming

  /** StreamControlCallbacks::onWrite, given which callbacks are registered. */
  function StreamControl(value: seq<byte>, hasStart: bool, hasStop: bool): (a: StreamAction)
    ensures a == StartStreaming ==> |value| == 1 && value[0] == 0x01 && hasStart
    ensures a == StopStreaming ==> |value| == 1 && value[0] == 0x00 && hasStop
  {
    if |value| == 1 then
      if value[0] == 0x01 && hasStart then StartStreaming
      else if value[0] == 0x00 && hasStop then StopStreaming
      else NoAction
    else NoAction
  }

  /** Only a single byte acts: 0x01 starts, 0x00 stops, each only when the
      matching callback is registered; everything else is ignored. */
  lemma StreamControlSpec(value: seq<byte>, hasStart: bool, hasStop: bool)
    ensures StreamControl(value, hasStart, hasStop) == StartStreaming
        <==> |value| == 1 && value[0] == 0x01 && hasStart
    ensures StreamControl(value, hasStart, hasStop) == StopStreaming
        <==> |value| == 1 && value[0] == 0x00 && hasStop
  {
  }

  /** The body of handleJsonSet's loop for one variable: the variable as
      updated and the `changed` flag. */
  method UpdateVariable(v: VarConfig, setObject: map<string, Json>)
    returns (after: VarConfig, changed: bool)
    requires WellFormed(v)
    ensures VarUpdate(after, changed) == ApplyVar(v, setObject)
  {
    after, changed := v, false;
    if v.name in setObject {
      var val := setObject[v.name];
      match v.vtype {
        case TypeInt =>
          var newValue := AsInt(val);
          if v.useLimits {
            newValue := Constrain(newValue, v.min, v.max);
          }
          if v.intValue != newValue {
            after := v.(intValue := newValue);
            changed := true;
          }
        case TypeFloat =>
        case TypeString =>
          if val.JStr? && StringChanged(v.stringValue, val.s) {
            after := v.(stringValue := StoreString(v.stringValue, val.s));
            changed := true;
          }
      }
    }
  }

  /** UpdateVariable on entry i of the table t, stated as its contribution
      to the whole loop: entry i of the result and the name it appends to
      the changed list. */
  method UpdateEntry(v: VarConfig, ghost t: seq<VarConfig>, ghost i: nat, setObject: map<string, Json>)
    returns (after: VarConfig, changed: bool)
    requires TableWellFormed(t) && i < |t| && v == t[i]
    ensures (if changed then after else v) == ApplyObject(t, setObject).table[i]
    ensures ApplyObject(t[..i + 1], setObject).changed
         == ApplyObject(t[..i], setObject).changed + if changed then [v.name] else []
  {
    after, changed := UpdateVariable(v, setObject);
    EntryUpdate(t, i, setObject, after, changed);
  }

  // ---------------------------------------------------------------------
  // The server object

  class Server {
    /** The application's table, shared with it as in the source. */
    var variables: array<VarConfig>
    /** onVariableChange is set. */
    var hasChangeCallback: bool

    /** The constructor together with begin's adoption of the table. */
    constructor Begin(vars: array<VarConfig>)
      ensures variables == vars && !hasChangeCallback
    {
      variables := vars;
      hasChangeCallback := false;
    }

    method SetOnVariableChangeCallback(registered: bool)
      modifies this`hasChangeCallback
      ensures hasChangeCallback == registered
    {
      hasChangeCallback := registered;
    }

    /** handleJsonSet: updates the table in place and returns the names passed
        to the change callback, in order. */
    method HandleJsonSet(doc: Doc) returns (fired: seq<string>)
      requires TableWellFormed(variables[..])
      modifies variables
      ensures variables[..] == ApplySet(old(variables[..]), doc).table
      ensures fired == if hasChangeCallback then ApplySet(old(variables[..]), doc).changed else []
      ensures TableWellFormed(variables[..])
    {
      if !HasSetObject(doc) {
        return [];
      }
      SetPreservesWellFormed(variables[..], doc["set"].members);
      fired := PatchTable(doc["set"].members);
    }

    /** The loop of handleJsonSet over the table, for the `set` object. */
    method PatchTable(setObject: map<string, Json>) returns (fired: seq<string>)
      requires TableWellFormed(variables[..])
      modifies variables
      ensures variables[..] == ApplyObject(old(variables[..]), setObject).table
      ensures fired == if hasChangeCallback then ApplyObject(old(variables[..]), setObject).changed else []
    {
      fired := [];
      ghost var t := variables[..];
      ghost var expected := ApplyObject(t, setObject).table;
      var i := 0;
      while i < variables.Length
        invariant 0 <= i <= variables.Length
        invariant forall k :: 0 <= k < i ==> variables[k] == expected[k]
        invariant forall k :: i <= k < variables.Length ==> variables[k] == t[k]
        invariant fired == if hasChangeCallback then ChangedBefore(t, i, setObject) else []
      {
        var changed, name := PatchEntry(i, t, expected, setObject);
        if changed && hasChangeCallback {
          fired := fired + [name];
        }
        i := i + 1;
      }
      assert variables[..] == expected;
      assert t[..i] == t;
    }

    /** One turn of handleJsonSet's loop: entry i is updated in place, and
        the change flag and the name for the callback are returned. */
    method PatchEntry(i: nat, ghost t: seq<VarConfig>, ghost expected: seq<VarConfig>,
                      setObject: map<string, Json>)
      returns (changed: bool, name: string)
      requires TableWellFormed(t) && expected == ApplyObject(t, setObject).table
      requires i < variables.Length == |t| && variables[i] == t[i]
      modifies variables
      ensures variables[i] == expected[i]
      ensures forall k :: 0 <= k < variables.Length && k != i ==> variables[k] == old(variables[k])
      ensures name == t[i].name
      ensures ChangedBefore(t, i + 1, setObject)
           == ChangedBefore(t, i, setObject) + if changed then [name] else []
    {
      var v := variables[i];
      name := v.name;
      var after;
      after, changed := UpdateEntry(v, t, i, setObject);
      if changed {
        variables[i] := after;
      }
    }

    /** generateJsonState: a fresh document with the current value of every
        variable. */
    method GenerateJsonState() returns (doc: map<string, Json>)
      ensures doc == StateOf(variables[..])
    {
      doc := map[];
      var i := 0;
      while i < variables.Length
        invariant 0 <= i <= variables.Length
        invariant doc == StateOf(variables[..i])
      {
        assert variables[..i + 1][..i] == variables[..i];
        var v := variables[i];
        match v.vtype {
          case TypeInt => doc := doc[v.name := JInt(v.intValue)];
          case TypeFloat => doc := doc[v.name := JFloat(v.floatValue)];
          case TypeString => doc := doc[v.name := JStr(CStr(v.stringValue))];
        }
        i := i + 1;
      }
      assert variables[..variables.Length] == variables[..];
    }

    /** JsonCharacteristicCallbacks::onWrite on the server's table. */
    method OnJsonWrite(value: string, parsed: Option<Doc>) returns (fired: seq<string>)
      requires TableWellFormed(variables[..])
      modifies variables
      ensures Dispatch(value, parsed).SetRequested? ==>
        && variables[..] == ApplySet(old(variables[..]), parsed.value).table
        && fired == if hasChangeCallback then ApplySet(old(variables[..]), parsed.value).changed else []
      ensures !Dispatch(value, parsed).SetRequested? ==> variables[..] == old(variables[..]) && fired == []
      ensures TableWellFormed(variables[..])
    {
      fired := [];
      if |value| > 0 && parsed.Some? {
        var doc := parsed.value;
        if "get" in doc {
          // the state is produced by the next read
        } else if "set" in doc {
          fired := HandleJsonSet(doc);
        }
      }
    }
  }
}
