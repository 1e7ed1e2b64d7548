/** The header multimap of the `http` crate, as the core uses it: an ordered
    sequence of (name, value) entries. `Append` keeps duplicates; `Insert`
    replaces every entry of that name with a single one. */
module HeaderMap {
  import opened Prelude

  datatype Header = Header(name: seq<byte>, value: seq<byte>)

  type Headers = seq<Header>

  /** The values stored under `name`, in map order. */
  function ValuesOf(m: Headers, name: seq<byte>): seq<seq<byte>>
  {
    if m == [] then []
    else (if m[0].name == name then [m[0].value] else []) + ValuesOf(m[1..], name)
  }

  /** The entries whose name is not `name`, in map order. */
  function Without(m: Headers, name: seq<byte>): Headers
  {
    if m == [] then []
    else (if m[0].name == name then [] else [m[0]]) + Without(m[1..], name)
  }

  predicate Has(m: Headers, name: seq<byte>)
  {
    exists i :: 0 <= i < |m| && m[i].name == name
  }

  /** Position of the first entry named `name`, or |m| when there is none. */
  function FirstIndex(m: Headers, name: seq<byte>): (i: nat)
    ensures i <= |m|
    ensures i < |m| <==> Has(m, name)
    ensures i < |m| ==> m[i].name == name
    ensures forall j :: 0 <= j < i ==> m[j].name != name
  {
    if m == [] then 0
    else if m[0].name == name then 0
    else 1 + FirstIndex(m[1..], name)
  }

  lemma {:induction false} ValuesOfConcat(a: Headers, b: Headers, name: seq<byte>)
    ensures ValuesOf(a + b, name) == ValuesOf(a, name) + ValuesOf(b, name)
  {
    if a == [] {
      assert a + b == b;
    } else {
      assert (a + b)[1..] == a[1..] + b;
      ValuesOfConcat(a[1..], b, name);
    }
  }

  lemma {:induction false} WithoutConcat(a: Headers, b: Headers, name: seq<byte>)
    ensures Without(a + b, name) == Without(a, name) + Without(b, name)
  {
    if a == [] {
      assert a + b == b;
    } else {
      assert (a + b)[1..] == a[1..] + b;
      WithoutConcat(a[1..], b, name);
    }
  }

  /** Removing a name leaves no value under it, removes nothing else, and is idempotent. */
  lemma {:induction false} WithoutProperties(m: Headers, name: seq<byte>)
    ensures ValuesOf(Without(m, name), name) == []
    ensures Without(Without(m, name), name) == Without(m, name)
    ensures forall other :: other != name ==> ValuesOf(Without(m, name), other) == ValuesOf(m, other)
  {
    if m != [] {
      WithoutProperties(m[1..], name);
      var head := if m[0].name == name then [] else [m[0]];
      assert Without(m, name) == head + Without(m[1..], name);
      ValuesOfConcat(head, Without(m[1..], name), name);
      WithoutConcat(head, Without(m[1..], name), name);
      forall other | other != name
        ensures ValuesOf(Without(m, name), other) == ValuesOf(m, other)
      {
        ValuesOfConcat(head, Without(m[1..], name), other);
      }
    }
  }

  /** Two maps with the same entries apart from `name` store the same values under every other name. */
  lemma {:induction false} SameWithoutSameValues(a: Headers, b: Headers, name: seq<byte>, other: seq<byte>)
    requires Without(a, name) == Without(b, name)
    requires other != name
    ensures ValuesOf(a, other) == ValuesOf(b, other)
  {
    WithoutProperties(a, name);
    WithoutProperties(b, name);
  }

  /** `HeaderMap::append`: adds one entry at the end, keeping earlier values of the same name. */
  function Append(m: Headers, name: seq<byte>, value: seq<byte>): (r: Headers)
    ensures |r| == |m| + 1 && r[..|m|] == m && r[|m|] == Header(name, value)
    ensures ValuesOf(r, name) == ValuesOf(m, name) + [value]
    ensures forall other :: other != name ==> ValuesOf(r, other) == ValuesOf(m, other)
  {
    ConcatValues(m, [Header(name, value)]);
    SingleValues(Header(name, value));
    m + [Header(name, value)]
  }

  lemma SingleValues(h: Header)
    ensures forall n :: ValuesOf([h], n) == if h.name == n then [h.value] else []
  {
    assert [h][1..] == [];
  }

  /** Values under every name distribute over concatenation. */
  lemma ConcatValues(a: Headers, b: Headers)
    ensures forall n :: ValuesOf(a + b, n) == ValuesOf(a, n) + ValuesOf(b, n)
  {
    forall n ensures ValuesOf(a + b, n) == ValuesOf(a, n) + ValuesOf(b, n) {
      ValuesOfConcat(a, b, n);
    }
  }

  /** The first entry named `name` takes the new value; later entries of that name are dropped. */
  function ReplaceFirst(m: Headers, name: seq<byte>, value: seq<byte>): (r: Headers)
    requires Has(m, name)
    ensures ValuesOf(r, name) == [value]
    ensures Without(r, name) == Without(m, name)
    ensures FirstIndex(r, name) == FirstIndex(m, name)
    decreases |m|
  {
    if m[0].name == name then
      WithoutProperties(m[1..], name);
      [Header(name, value)] + Without(m[1..], name)
    else
      assert Has(m[1..], name) by {
        var i :| 0 <= i < |m| && m[i].name == name;
        assert m[1..][i - 1].name == name;
      }
      [m[0]] + ReplaceFirst(m[1..], name, value)
  }

  /** `HeaderMap::insert`: afterwards `name` has exactly one value, every other entry is kept
      in order, and an existing name keeps the position of its first entry. */
  function Insert(m: Headers, name: seq<byte>, value: seq<byte>): (r: Headers)
    ensures ValuesOf(r, name) == [value]
    ensures Without(r, name) == Without(m, name)
    ensures forall other :: other != name ==> ValuesOf(r, other) == ValuesOf(m, other)
    ensures Has(m, name) ==> FirstIndex(r, name) == FirstIndex(m, name)
    ensures !Has(m, name) ==> r == m + [Header(name, value)]
  {
    if Has(m, name) then
      var r := ReplaceFirst(m, name, value);
      SameWithoutEverywhere(r, m, name);
      r
    else
      WithoutConcat(m, [Header(name, value)], name);
      NoValuesWhenAbsent(m, name);
      Append(m, name, value)
  }

  lemma SameWithoutEverywhere(a: Headers, b: Headers, name: seq<byte>)
    requires Without(a, name) == Without(b, name)
    ensures forall other :: other != name ==> ValuesOf(a, other) == ValuesOf(b, other)
  {
    forall other | other != name ensures ValuesOf(a, other) == ValuesOf(b, other) {
      SameWithoutSameValues(a, b, name, other);
    }
  }

  /** A value stored in an entry is among the values of that entry's name. */
  lemma {:induction false} ValuesOfHas(m: Headers, i: nat)
    requires i < |m|
    ensures m[i].value in ValuesOf(m, m[i].name)
  {
    if i > 0 {
      assert m[1..][i - 1] == m[i];
      ValuesOfHas(m[1..], i - 1);
    }
  }

  /** Removing a name keeps only entries that were there. */
  lemma {:induction false} WithoutEntries(m: Headers, name: seq<byte>)
    ensures forall h :: h in Without(m, name) ==> h in m
  {
    if m != [] {
      WithoutEntries(m[1..], name);
      var head := if m[0].name == name then [] else [m[0]];
      assert Without(m, name) == head + Without(m[1..], name);
      assert forall h :: h in m[1..] ==> h in m;
    }
  }

  lemma HasTail(m: Headers, name: seq<byte>)
    requires Has(m, name) && m[0].name != name
    ensures Has(m[1..], name)
  {
    var i :| 0 <= i < |m| && m[i].name == name;
    assert m[1..][i - 1].name == name;
  }

  lemma {:induction false} ReplaceFirstEntries(m: Headers, name: seq<byte>, value: seq<byte>)
    requires Has(m, name)
    ensures forall h :: h in ReplaceFirst(m, name, value) ==> h in m || h == Header(name, value)
    decreases |m|
  {
    assert forall h :: h in m[1..] ==> h in m;
    if m[0].name == name {
      WithoutEntries(m[1..], name);
    } else {
      HasTail(m, name);
      ReplaceFirstEntries(m[1..], name, value);
    }
  }

  /** Every entry after an insert is an entry of the old map or the inserted pair. */
  lemma InsertEntries(m: Headers, name: seq<byte>, value: seq<byte>)
    ensures forall h :: h in Insert(m, name, value) ==> h in m || h == Header(name, value)
  {
    if Has(m, name) {
      ReplaceFirstEntries(m, name, value);
    }
  }

  lemma {:induction false} ReplaceFirstTwice(m: Headers, name: seq<byte>, v1: seq<byte>, v2: seq<byte>)
    requires Has(m, name)
    ensures Has(ReplaceFirst(m, name, v1), name)
    ensures ReplaceFirst(ReplaceFirst(m, name, v1), name, v2) == ReplaceFirst(m, name, v2)
    decreases |m|
  {
    var r1 := ReplaceFirst(m, name, v1);
    if m[0].name == name {
      var w := Without(m[1..], name);
      WithoutProperties(m[1..], name);
      assert r1[0].name == name && r1[1..] == w;
    } else {
      HasTail(m, name);
      ReplaceFirstTwice(m[1..], name, v1, v2);
      assert r1[1..] == ReplaceFirst(m[1..], name, v1);
      var i :| 0 <= i < |r1[1..]| && r1[1..][i].name == name;
      assert r1[i + 1].name == name;
    }
  }

  lemma ReplaceFirstCons(h: Header, m: Headers, name: seq<byte>, value: seq<byte>)
    requires h.name != name && Has(m, name)
    ensures Has([h] + m, name)
    ensures ReplaceFirst([h] + m, name, value) == [h] + ReplaceFirst(m, name, value)
  {
    var i :| 0 <= i < |m| && m[i].name == name;
    assert ([h] + m)[i + 1].name == name;
    assert ([h] + m)[1..] == m;
  }

  lemma {:induction false} ReplaceFirstLast(m: Headers, name: seq<byte>, v1: seq<byte>, v2: seq<byte>)
    requires !Has(m, name)
    ensures Has(m + [Header(name, v1)], name)
    ensures ReplaceFirst(m + [Header(name, v1)], name, v2) == m + [Header(name, v2)]
  {
    var r := m + [Header(name, v1)];
    assert r[|m|].name == name;
    if m == [] {
      assert r[0].name == name && r[1..] == [];
    } else {
      var t := m[1..];
      assert forall j :: 0 <= j < |t| ==> t[j] == m[j + 1];
      ReplaceFirstLast(t, name, v1, v2);
      ConsAppend(m, Header(name, v1));
      ConsAppend(m, Header(name, v2));
      ReplaceFirstCons(m[0], t + [Header(name, v1)], name, v2);
    }
  }

  /** A second insert under the same name supersedes the first: the map is as if only it happened. */
  lemma InsertTwice(m: Headers, name: seq<byte>, v1: seq<byte>, v2: seq<byte>)
    ensures Insert(Insert(m, name, v1), name, v2) == Insert(m, name, v2)
  {
    if Has(m, name) {
      ReplaceFirstTwice(m, name, v1, v2);
    } else {
      ReplaceFirstLast(m, name, v1, v2);
    }
  }

  lemma {:induction false} NoValuesWhenAbsent(m: Headers, name: seq<byte>)
    requires !Has(m, name)
    ensures ValuesOf(m, name) == []
  {
    if m != [] {
      assert m[0].name != name;
      assert forall i :: 0 <= i < |m[1..]| ==> m[1..][i] == m[i + 1];
      NoValuesWhenAbsent(m[1..], name);
    }
  }
}

/** What the `http` crate accepts as header names and values. */
module HeaderSyntax {
  import opened Prelude

  /** `tchar` of section 5.6.2 of RFC 9110. */
  predicate IsTokenChar(b: byte)
  {
    || (48 <= b <= 57)                       // DIGIT
    || (65 <= b <= 90) || (97 <= b <= 122)   // ALPHA
    || b in {33, 35, 36, 37, 38, 39, 42, 43, 45, 46, 94, 95, 96, 124, 126}   // !#$%&'*+-.^_`|~
  }

  predicate IsToken(s: seq<byte>)
  {
    |s| > 0 && forall i :: 0 <= i < |s| ==> IsTokenChar(s[i])
  }

  /** ASCII lower-casing, as `HeaderName::from_bytes` normalises names. */
  function Lower(s: seq<byte>): (r: seq<byte>)
    ensures |r| == |s|
    ensures forall i :: 0 <= i < |s| ==> r[i] == if 65 <= s[i] <= 90 then s[i] + 32 else s[i]
  {
    if s == [] then [] else [if 65 <= s[0] <= 90 then s[0] + 32 else s[0]] + Lower(s[1..])
  }

  /** A byte `HeaderValue::from_bytes` admits: visible, space, tab or obs-text, never a control. */
  predicate IsValueByte(b: byte)
  {
    b == HTAB || (32 <= b && b != 127)
  }

  predicate IsValue(v: seq<byte>)
  {
    forall i :: 0 <= i < |v| ==> IsValueByte(v[i])
  }

  /** `HeaderValue::to_str` succeeds: visible ASCII, space or tab only. */
  predicate IsVisibleAscii(v: seq<byte>)
  {
    forall i :: 0 <= i < |v| ==> v[i] == HTAB || (32 <= v[i] < 127)
  }
}
