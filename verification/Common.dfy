// Vocabulary shared by the models: optional values, bytes, and the widths of the C++ integers.
module Common {

  datatype Option<+T> = None | Some(value: T)

  // One unsigned char.
  type byte = b: int | 0 <= b < 256

  const INT_MAX: int := 0x7fff_ffff
  const LLONG_MAX: int := 0x7fff_ffff_ffff_ffff
  const TWO_TO_32: int := 0x1_0000_0000

  function Min(a: int, b: int): int {
    if a <= b then a else b
  }

  // Concatenation of a list of strings or byte blocks.
  function Concat<T>(parts: seq<seq<T>>): seq<T> {
    if parts == [] then [] else parts[0] + Concat(parts[1..])
  }

  lemma {:induction false} ConcatAppend<T>(a: seq<seq<T>>, b: seq<seq<T>>)
    ensures Concat(a + b) == Concat(a) + Concat(b)
  {
    if a == [] {
      assert a + b == b;
    } else {
      assert (a + b)[1..] == a[1..] + b;
      ConcatAppend(a[1..], b);
    }
  }

  lemma Assoc<T>(a: seq<T>, b: seq<T>, c: seq<T>)
    ensures a + (b + c) == a + b + c
  {
  }

  // A member of a non-empty set.
  lemma Pick<T>(s: set<T>) returns (x: T)
    requires s != {}
    ensures x in s
  {
    x :| x in s;
  }

  // A key that a map sends to a given value.
  lemma PickKey<K, V>(m: map<K, V>, v: V) returns (k: K)
    requires v in m.Values
    ensures k in m && m[k] == v
  {
    k :| k in m && m[k] == v;
  }

  lemma {:induction false} SmallestExists(s: set<int>)
    requires s != {}
    ensures exists least :: least in s && forall other :: other in s ==> least <= other
    decreases |s|
  {
    var x := Pick(s);
    var rest := s - {x};
    if rest == {} {
      assert s == {x};
      assert x in s && forall other :: other in s ==> x <= other;
    } else {
      SmallestExists(rest);
      var least :| least in rest && forall other :: other in rest ==> least <= other;
      var m := if x <= least then x else least;
      assert m in s;
      assert forall other :: other in s ==> other == x || other in rest;
      assert forall other :: other in s ==> m <= other;
    }
  }

  // ---------- The letters and digits of ASCII, written out ----------

  function Upper(): string {
    "ABCDEFGHIJKLMNOPQRSTUVWXYZ"
  }

  function Lower(): string {
    "abcdefghijklmnopqrstuvwxyz"
  }

  function Figures(): string {
    "0123456789"
  }

  lemma UpperAt(i: nat)
    requires i < 26
    ensures |Upper()| == 26 && Upper()[i] == (65 + i) as char
  {
  }

  lemma LowerAt(i: nat)
    requires i < 26
    ensures |Lower()| == 26 && Lower()[i] == (97 + i) as char
  {
  }

  lemma FigureAt(i: nat)
    requires i < 10
    ensures |Figures()| == 10 && Figures()[i] == (48 + i) as char
  {
  }

  lemma UpperAre(c: char)
    ensures c in Upper() <==> 'A' <= c <= 'Z'
  {
    hide Upper;
    UpperAt(if 'A' <= c <= 'Z' then c as int - 65 else 0);
    if c in Upper() {
      var i :| 0 <= i < |Upper()| && Upper()[i] == c;
      UpperAt(i);
    }
  }

  lemma LowerAre(c: char)
    ensures c in Lower() <==> 'a' <= c <= 'z'
  {
    hide Lower;
    LowerAt(if 'a' <= c <= 'z' then c as int - 97 else 0);
    if c in Lower() {
      var i :| 0 <= i < |Lower()| && Lower()[i] == c;
      LowerAt(i);
    }
  }

  lemma FiguresAre(c: char)
    ensures c in Figures() <==> '0' <= c <= '9'
  {
    hide Figures;
    FigureAt(if '0' <= c <= '9' then c as int - 48 else 0);
    if c in Figures() {
      var i :| 0 <= i < |Figures()| && Figures()[i] == c;
      FigureAt(i);
    }
  }
}
