// JSON values as nlohmann::json holds them, and the pointer operations that settings.cpp uses.
module Json {
  import opened Common

  datatype Value =
    | Null
    | Bool(b: bool)
    | Number(n: int)
    | Text(s: string)
    | Other(image: string)  // floats and binary values
    | Array(items: seq<Value>)
    | Object(fields: map<string, Value>)

  // A parsed JSON pointer: its reference tokens.
  type Path = seq<string>

  // Tokens made of digits only, and "-", address arrays; no option name is one.
  predicate NameToken(t: string) {
    t != "" && t != "-" && !('0' <= t[0] <= '9')
  }

  predicate NamePath(p: Path) {
    forall i :: 0 <= i < |p| ==> NameToken(p[i])
  }

  // Reading without changing: absent nodes read as null.
  function Get(j: Value, p: Path): Value
    decreases |p|
  {
    if p == [] then j
    else if j.Object? && p[0] in j.fields then Get(j.fields[p[0]], p[1..])
    else Null
  }

  predicate Exists(j: Value, p: Path)
    decreases |p|
  {
    p == [] || (j.Object? && p[0] in j.fields && Exists(j.fields[p[0]], p[1..]))
  }

  // operator[](json_pointer) on a mutable value: null nodes on the way become objects and the
  // target is inserted as null. None where it throws: a scalar has no members, and a name is no
  // array index.
  function Touch(j: Value, p: Path): Option<Value>
    requires NamePath(p)
    decreases |p|
  {
    if p == [] then Some(j)
    else match j
      case Null => TouchIn(map[], p)
      case Object(fields) => TouchIn(fields, p)
      case _ => None
  }

  function TouchIn(fields: map<string, Value>, p: Path): Option<Value>
    requires p != [] && NamePath(p)
    decreases |p|, 0
  {
    var child := Touch(if p[0] in fields then fields[p[0]] else Null, p[1..]);
    if child == None then None else Some(Object(fields[p[0] := child.value]))
  }

  // Assignment through a path that exists.
  function SetAt(j: Value, p: Path, v: Value): (r: Value)
    requires Exists(j, p)
    decreases |p|
  {
    if p == [] then v else Object(j.fields[p[0] := SetAt(j.fields[p[0]], p[1..], v)])
  }

  // RFC 6902 "replace" (section 4.3): the target must exist.
  function Replace(j: Value, p: Path, v: Value): Option<Value> {
    if Exists(j, p) then Some(SetAt(j, p, v)) else None
  }

  // RFC 6902 "add" (section 4.1): the parent must exist, and be null or an object to get a member.
  function Add(j: Value, p: Path, v: Value): Option<Value>
    decreases |p|
  {
    if p == [] then Some(v)
    else if |p| == 1 then
      match j
      case Null => Some(Object(map[p[0] := v]))
      case Object(fields) => Some(Object(fields[p[0] := v]))
      case _ => None
    else if j.Object? && p[0] in j.fields then
      var child := Add(j.fields[p[0]], p[1..], v);
      if child == None then None else Some(Object(j.fields[p[0] := child.value]))
    else None
  }

  // Every node strictly above the target is absent, null or an object.
  predicate Open(j: Value, p: Path)
    decreases |p|
  {
    p == [] || j.Null?
    || (j.Object? && (p[0] in j.fields ==> Open(j.fields[p[0]], p[1..])))
  }

  // Neither path leads to or through the other.
  predicate Unrelated(p: Path, q: Path) {
    !(p <= q) && !(q <= p)
  }

  lemma UnrelatedStep(p: Path, q: Path)
    requires Unrelated(p, q)
    ensures p != [] && q != [] && (p[0] == q[0] ==> Unrelated(p[1..], q[1..]))
  {
    if p[0] == q[0] {
      assert p == [p[0]] + p[1..] && q == [q[0]] + q[1..];
    }
  }

  // ---------- Touch ----------

  lemma {:induction false} TouchSucceeds(j: Value, p: Path)
    requires NamePath(p)
    ensures Touch(j, p).Some? <==> Open(j, p)
    decreases |p|
  {
    if p != [] {
      TouchSucceeds(Null, p[1..]);
      if j.Object? && p[0] in j.fields {
        TouchSucceeds(j.fields[p[0]], p[1..]);
      }
    }
  }

  // The target then exists and reads as before.
  lemma {:induction false} TouchMaterialises(j: Value, p: Path)
    requires NamePath(p) && Touch(j, p).Some?
    ensures Exists(Touch(j, p).value, p)
    ensures Get(Touch(j, p).value, p) == Get(j, p)
    decreases |p|
  {
    if p != [] {
      var child := if j.Object? && p[0] in j.fields then j.fields[p[0]] else Null;
      TouchMaterialises(child, p[1..]);
      GetNull(p[1..]);
    }
  }

  lemma GetNull(p: Path)
    ensures Get(Null, p) == Null
  {
  }

  // What exists stays, what is open stays open, and the reverse.
  lemma {:induction false} TouchKeepsShape(j: Value, p: Path, q: Path)
    requires NamePath(p) && Touch(j, p).Some?
    ensures Exists(j, q) ==> Exists(Touch(j, p).value, q)
    ensures Open(Touch(j, p).value, q) <==> Open(j, q)
    decreases |p|
  {
    if p != [] && q != [] {
      var child := if j.Object? && p[0] in j.fields then j.fields[p[0]] else Null;
      if p[0] == q[0] {
        TouchKeepsShape(child, p[1..], q[1..]);
      }
    }
  }

  // Nothing is visible at a path that is not strictly above the target.
  lemma {:induction false} TouchFrame(j: Value, p: Path, q: Path)
    requires NamePath(p) && Touch(j, p).Some?
    requires !(q <= p) || q == p
    ensures Get(Touch(j, p).value, q) == Get(j, q)
    decreases |p|
  {
    if p != [] {
      var child := if j.Object? && p[0] in j.fields then j.fields[p[0]] else Null;
      assert q != [];
      GetNull(q[1..]);
      if p[0] == q[0] {
        assert p == [p[0]] + p[1..] && q == [q[0]] + q[1..];
        TouchFrame(child, p[1..], q[1..]);
      }
    }
  }

  // ---------- SetAt and the patch operations ----------

  lemma {:induction false} AddIsSet(j: Value, p: Path, v: Value)
    requires Exists(j, p)
    ensures Add(j, p, v) == Some(SetAt(j, p, v))
    decreases |p|
  {
    if |p| > 1 {
      AddIsSet(j.fields[p[0]], p[1..], v);
    } else if |p| == 1 {
      assert p[1..] == [];
    }
  }

  lemma {:induction false} SetReads(j: Value, p: Path, v: Value)
    requires Exists(j, p)
    ensures Exists(SetAt(j, p, v), p) && Get(SetAt(j, p, v), p) == v
    decreases |p|
  {
    if p != [] {
      SetReads(j.fields[p[0]], p[1..], v);
    }
  }

  // Setting one path leaves every unrelated path as it was.
  lemma {:induction false} SetFrame(j: Value, p: Path, v: Value, q: Path)
    requires Exists(j, p) && Unrelated(p, q)
    ensures Get(SetAt(j, p, v), q) == Get(j, q)
    ensures Exists(SetAt(j, p, v), q) <==> Exists(j, q)
    ensures Open(SetAt(j, p, v), q) <==> Open(j, q)
    decreases |p|
  {
    UnrelatedStep(p, q);
    if p[0] == q[0] {
      SetFrame(j.fields[p[0]], p[1..], v, q[1..]);
    }
  }

  lemma {:induction false} GetAppend(j: Value, p: Path, q: Path)
    ensures Get(j, p + q) == Get(Get(j, p), q)
    decreases |p|
  {
    if p == [] {
      assert p + q == q;
    } else {
      assert (p + q)[1..] == p[1..] + q;
      GetNull(q);
      if j.Object? && p[0] in j.fields {
        GetAppend(j.fields[p[0]], p[1..], q);
      }
    }
  }

  // Open, said by reading: nothing but null and objects on the way.
  lemma {:induction false} OpenMeans(j: Value, p: Path)
    ensures Open(j, p) <==> forall k :: 0 <= k < |p| ==> Get(j, p[..k]).Null? || Get(j, p[..k]).Object?
    decreases |p|
  {
    if p != [] {
      assert p[..0] == [];
      GetNull(p[1..]);
      forall k | 1 <= k < |p| ensures p[..k][0] == p[0] && p[..k][1..] == p[1..][..k - 1] {
      }
      if j.Object? && p[0] in j.fields {
        OpenMeans(j.fields[p[0]], p[1..]);
        if Open(j, p) {
          forall k | 1 <= k < |p| ensures Get(j, p[..k]).Null? || Get(j, p[..k]).Object? {
            assert Get(j, p[..k]) == Get(j.fields[p[0]], p[1..][..k - 1]);
          }
        } else {
          var k :| 0 <= k < |p| - 1 && !Get(j.fields[p[0]], p[1..][..k]).Null? && !Get(j.fields[p[0]], p[1..][..k]).Object?;
          assert p[..k + 1][0] == p[0] && p[..k + 1][1..] == p[1..][..k];
          assert Get(j, p[..k + 1]) == Get(j.fields[p[0]], p[1..][..k]);
        }
      } else {
        forall k | 1 <= k < |p| ensures Get(j, p[..k]).Null? {
          assert p[..k] != [];
        }
        assert Get(j, p[..0]) == j;
      }
    }
  }
}
