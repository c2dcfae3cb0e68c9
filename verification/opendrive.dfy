/** The pure helpers of the OpenDRIVE code generator: cleaning names so
    they are legal identifiers, mapping XML-schema types to C++ types, and
    folding the members of `union` types into struct dictionaries. */
module OpenDrive {
  import opened Optional
  import Strings

  /** `s.replace(c, rep)` for a one-character `c`: every `c` becomes `rep`. */
  function ReplaceChar(s: string, c: char, rep: string): (r: string)
    ensures c !in rep ==> c !in r
    ensures c !in s ==> r == s
    decreases |s|
  {
    if |s| == 0 then ""
    else (if s[0] == c then rep else [s[0]]) + ReplaceChar(s[1..], c, rep)
  }

  /** A character in neither the text nor the replacement is not in the
      result. */
  lemma {:induction false} ReplaceKeepsAbsent(s: string, c: char, rep: string, d: char)
    requires d !in s && d !in rep
    ensures d !in ReplaceChar(s, c, rep)
    decreases |s|
  {
    if |s| > 0 {
      assert d !in s[1..];
      ReplaceKeepsAbsent(s[1..], c, rep, d);
    }
  }

  lemma {:induction false} ReplaceCharAppend(a: string, b: string, c: char, rep: string)
    ensures ReplaceChar(a + b, c, rep) == ReplaceChar(a, c, rep) + ReplaceChar(b, c, rep)
    decreases |a|
  {
    if |a| == 0 {
      assert a + b == b;
    } else {
      assert (a + b)[1..] == a[1..] + b;
      ReplaceCharAppend(a[1..], b, c, rep);
    }
  }

  /** The characters that may not appear in a generated name. */
  predicate IsIllegal(c: char) {
    c == '/' || c == '+' || c == '-' || c == '%'
  }

  /** `fix_non_legal_chars`: `/` is dropped, and `+`, `-` and `%` are
      spelled out, one replacement over the whole string after another.
      The result holds no illegal character, and a string without one is
      returned as it is. */
  function FixNonLegalChars(s: string): (r: string)
    ensures forall k :: 0 <= k < |r| ==> !IsIllegal(r[k])
    ensures (forall k :: 0 <= k < |s| ==> !IsIllegal(s[k])) ==> r == s
  {
    var noSlash := ReplaceChar(s, '/', "");
    var noPlus := ReplaceChar(noSlash, '+', "positive");
    var noMinus := ReplaceChar(noPlus, '-', "negative");
    var r := ReplaceChar(noMinus, '%', "percent");
    PassesClean(s, noSlash, noPlus, noMinus, r);
    r
  }

  /** Each pass removes its character, and no later replacement text
      brings an illegal character back. */
  lemma PassesClean(s: string, noSlash: string, noPlus: string, noMinus: string, r: string)
    requires noSlash == ReplaceChar(s, '/', "")
    requires noPlus == ReplaceChar(noSlash, '+', "positive")
    requires noMinus == ReplaceChar(noPlus, '-', "negative")
    requires r == ReplaceChar(noMinus, '%', "percent")
    ensures forall k :: 0 <= k < |r| ==> !IsIllegal(r[k])
  {
    SpellingsClean();
    ReplaceKeepsAbsent(noSlash, '+', "positive", '/');
    ReplaceKeepsAbsent(noPlus, '-', "negative", '/');
    ReplaceKeepsAbsent(noPlus, '-', "negative", '+');
    ReplaceKeepsAbsent(noMinus, '%', "percent", '/');
    ReplaceKeepsAbsent(noMinus, '%', "percent", '+');
    ReplaceKeepsAbsent(noMinus, '%', "percent", '-');
    forall k | 0 <= k < |r| ensures !IsIllegal(r[k]) {
      assert r[k] in r;
    }
  }

  lemma SpellingsClean()
    ensures '/' !in "positive" && '+' !in "positive" && '-' !in "positive" && '%' !in "positive"
    ensures '/' !in "negative" && '+' !in "negative" && '-' !in "negative" && '%' !in "negative"
    ensures '/' !in "percent" && '+' !in "percent" && '-' !in "percent" && '%' !in "percent"
  {
  }

  /** Cleaning a clean name changes nothing. */
  lemma FixNonLegalCharsIdempotent(s: string)
    ensures FixNonLegalChars(FixNonLegalChars(s)) == FixNonLegalChars(s)
  {
  }

  /** What each character becomes in a clean name. */
  function LegalSpelling(c: char): string {
    if c == '/' then ""
    else if c == '+' then "positive"
    else if c == '-' then "negative"
    else if c == '%' then "percent"
    else [c]
  }

  /** The clean name character by character, as a reference. */
  function SpellOut(s: string): string
    decreases |s|
  {
    if |s| == 0 then "" else LegalSpelling(s[0]) + SpellOut(s[1..])
  }

  /** The four passes over the whole string come to one pass that
      replaces each character by its spelling: no replacement text holds a
      character a later pass replaces. */
  lemma {:induction false} FixNonLegalCharsIsSpellOut(s: string)
    ensures FixNonLegalChars(s) == SpellOut(s)
    decreases |s|
  {
    if |s| > 0 {
      var head, tail := [s[0]], s[1..];
      assert s == head + tail;
      FixAppend(head, tail);
      FixNonLegalCharsIsSpellOut(tail);
      FixOneCharacter(s[0]);
    }
  }

  lemma FixAppend(a: string, b: string)
    ensures FixNonLegalChars(a + b) == FixNonLegalChars(a) + FixNonLegalChars(b)
  {
    ReplaceCharAppend(a, b, '/', "");
    var a1, b1 := ReplaceChar(a, '/', ""), ReplaceChar(b, '/', "");
    ReplaceCharAppend(a1, b1, '+', "positive");
    var a2, b2 := ReplaceChar(a1, '+', "positive"), ReplaceChar(b1, '+', "positive");
    ReplaceCharAppend(a2, b2, '-', "negative");
    var a3, b3 := ReplaceChar(a2, '-', "negative"), ReplaceChar(b2, '-', "negative");
    ReplaceCharAppend(a3, b3, '%', "percent");
  }

  lemma FixOneCharacter(c: char)
    ensures FixNonLegalChars([c]) == LegalSpelling(c)
  {
    var s := [c];
    assert s[1..] == [];
    SpellingsClean();
    if c == '/' {
      assert ReplaceChar(s, '/', "") == "";
    } else if c == '+' {
      assert ReplaceChar(s, '+', "positive") == "positive";
    } else if c == '-' {
      assert ReplaceChar(s, '-', "negative") == "negative";
    } else if c == '%' {
      assert ReplaceChar(s, '%', "percent") == "percent";
    }
  }

  /** The C++ type for each XML-schema type the generator knows; the last
      two are the OpenDRIVE core types for non-negative and positive
      numbers. */
  const XSD_TO_CPP: map<string, string> := map[
    "xs:string" := "std::string",
    "xs:double" := "double",
    "xs:integer" := "int",
    "xs:negativeInteger" := "int",
    "xs:float" := "float",
    "t_grEqZero" := "double",
    "t_grZero" := "double"]

  /** `replace_xsd_types`: a known type is translated by the table, any
      other name is returned as it is. */
  function ReplaceXsdTypes(attribute: string): (r: string)
    ensures attribute in XSD_TO_CPP ==> r == XSD_TO_CPP[attribute]
    ensures attribute !in XSD_TO_CPP ==> r == attribute
  {
    if attribute == "xs:string" then "std::string"
    else if attribute == "xs:double" then "double"
    else if attribute == "xs:integer" then "int"
    else if attribute == "xs:negativeInteger" then "int"
    else if attribute == "xs:float" then "float"
    else if attribute == "t_grEqZero" then "double"
    else if attribute == "t_grZero" then "double"
    else attribute
  }

  /** A translated type is not translated again. */
  lemma ReplaceXsdTypesIdempotent(attribute: string)
    ensures ReplaceXsdTypes(ReplaceXsdTypes(attribute)) == ReplaceXsdTypes(attribute)
  {
  }

  /** A value of the parsed schema dictionary: a string, a dictionary
      (with its keys in insertion order), or any other value, which the
      restructuring only copies. */
  datatype Val = Text(s: string) | Dict(items: seq<(string, Val)>) | Opaque(id: int)

  /** An entry of the restructured dictionary: a value copied over, or the
      member dictionary built for a struct. */
  datatype Entry = Kept(v: Val) | Struct(members: map<string, Val>)

  /** Python's `needle in hay` on strings. */
  predicate Contains(hay: string, needle: string) {
    exists i :: 0 <= i <= |hay| - |needle| && OccursAt(hay, needle, i)
  }

  predicate OccursAt(hay: string, needle: string, i: nat)
    requires i + |needle| <= |hay|
  {
    hay[i..i + |needle|] == needle
  }

  predicate IsStructKey(key: string) {
    Contains(key, "struct")
  }

  /** A Python dictionary has each key once. */
  ghost predicate UniqueKeys(items: seq<(string, Val)>) {
    forall i, j :: 0 <= i < j < |items| ==> items[i].0 != items[j].0
  }

  ghost predicate HasKey(items: seq<(string, Val)>, k: string) {
    exists p :: p in items && p.0 == k
  }

  /** The member names listed in one second-level dictionary: each value
      split at spaces. A value that is not a string makes `split` fail. */
  function LeafNames(items: seq<(string, Val)>): (r: Option<seq<string>>)
    ensures r.Some? <==> forall k :: 0 <= k < |items| ==> items[k].1.Text?
    decreases |items|
  {
    if |items| == 0 then Some([])
    else
      match items[0].1
      case Text(t) =>
        (match LeafNames(items[1..])
         case None => None
         case Some(rest) => Some(Strings.SplitString(t, ' ') + rest))
      case _ => None
  }

  /** The member names of a struct's first-level dictionary. A value that
      is not a dictionary makes `items()` fail. */
  function InnerNames(items: seq<(string, Val)>): (r: Option<seq<string>>)
    ensures r.Some? <==> forall k :: 0 <= k < |items| ==> items[k].1.Dict? && LeafNames(items[k].1.items).Some?
    decreases |items|
  {
    if |items| == 0 then Some([])
    else
      match items[0].1
      case Dict(inner) =>
        (match (LeafNames(inner), InnerNames(items[1..]))
         case (Some(first), Some(rest)) => Some(first + rest)
         case _ => None)
      case _ => None
  }

  /** The member names of a struct value, in the order the loops of
      `union_to_struct` meet them, or `None` when the value does not have
      the two levels of dictionaries around strings. */
  function MemberNames(v: Val): Option<seq<string>> {
    match v
    case Dict(items) => InnerNames(items)
    case _ => None
  }

  /** The items whose key contains `m`, in order. */
  function Matching(data: seq<(string, Val)>, m: string): (r: seq<(string, Val)>)
    ensures forall p :: p in r <==> p in data && Contains(p.0, m)
    decreases |data|
  {
    if |data| == 0 then []
    else (if Contains(data[0].0, m) then [data[0]] else []) + Matching(data[1..], m)
  }

  /** `dict.update` with the items one after another. */
  function Update(md: map<string, Val>, items: seq<(string, Val)>): (r: map<string, Val>)
    ensures forall k :: k in r <==> k in md || HasKey(items, k)
    ensures forall k :: k in md && !HasKey(items, k) ==> r[k] == md[k]
    ensures forall i :: 0 <= i < |items| ==> items[i].0 in r
    ensures UniqueKeys(items) ==> forall i :: 0 <= i < |items| ==> r[items[i].0] == items[i].1
    decreases |items|
  {
    if |items| == 0 then md
    else
      var r := Update(md[items[0].0 := items[0].1], items[1..]);
      HasKeySplit(items);
      r
  }

  /** The name given to the value of a struct of a core type: `double`
      and the key from its tenth character on (the key starts with
      `struct t_`). */
  function DoubleName(key: string): string {
    "double " + (if |key| >= 9 then key[9..] else "")
  }

  predicate IsCoreType(m: string) {
    m == "t_grEqZero" || m == "t_grZero"
  }

  /** An item key is picked up by one of the member names. */
  ghost predicate PickedBy(data: seq<(string, Val)>, k: string, names: seq<string>) {
    HasKey(data, k) && exists j :: 0 <= j < |names| && Contains(k, names[j])
  }

  ghost predicate HasCoreType(names: seq<string>) {
    exists j :: 0 <= j < |names| && IsCoreType(names[j])
  }

  /** The keys a member dictionary ends up with. */
  ghost predicate MemberKeys(data: seq<(string, Val)>, key: string, names: seq<string>,
                             md: map<string, Val>, r: map<string, Val>) {
    forall k :: k in r <==> k in md || PickedBy(data, k, names) || (k == DoubleName(key) && HasCoreType(names))
  }

  /** The values it ends up with: a picked item keeps its value, an
      entry that nothing overwrites stays as it was, and the `double`
      member of a core type holds the empty text unless an item of that
      name is picked up. */
  ghost predicate MemberValues(data: seq<(string, Val)>, key: string, names: seq<string>,
                               md: map<string, Val>, r: map<string, Val>) {
    (forall i :: (0 <= i < |data| && !(data[i].0 == DoubleName(key) && HasCoreType(names))
                  && PickedBy(data, data[i].0, names))
       ==> data[i].0 in r && r[data[i].0] == data[i].1)
    && (forall k :: (k in md && !(k == DoubleName(key) && HasCoreType(names)) && !PickedBy(data, k, names))
                      ==> k in r && r[k] == md[k])
    && ((HasCoreType(names) && !PickedBy(data, DoubleName(key), names))
        ==> DoubleName(key) in r && r[DoubleName(key)] == Text(""))
  }

  /** One member name of struct `key`: every item whose key contains the
      name joins the member dictionary with its value; a core type adds
      the member named by `DoubleName` with an empty value. */
  function AddMember(data: seq<(string, Val)>, key: string, md: map<string, Val>, m: string): (r: map<string, Val>)
    requires UniqueKeys(data)
    ensures MemberKeys(data, key, [m], md, r)
    ensures MemberValues(data, key, [m], md, r)
  {
    var matching := Matching(data, m);
    var md1 := Update(md, matching);
    MatchingKeys(data, m);
    var r := if IsCoreType(m) then md1[DoubleName(key) := Text("")] else md1;
    assert HasCoreType([m]) <==> IsCoreType(m) by {
      assert [m][0] == m;
    }
    PickedByMatching(data, m);
    forall i | 0 <= i < |data| && !(data[i].0 == DoubleName(key) && HasCoreType([m])) && PickedBy(data, data[i].0, [m])
      ensures data[i].0 in r && r[data[i].0] == data[i].1
    {
      assert data[i] in matching;
    }
    r
  }

  /** The keys one member name picks up are the keys of its matching items. */
  lemma PickedByMatching(data: seq<(string, Val)>, m: string)
    ensures forall k :: PickedBy(data, k, [m]) <==> HasKey(Matching(data, m), k)
  {
    forall k ensures PickedBy(data, k, [m]) <==> HasKey(Matching(data, m), k) {
      assert [m][0] == m;
      if HasKey(data, k) && Contains(k, m) {
        var p :| p in data && p.0 == k;
        assert p in Matching(data, m);
      }
    }
  }

  /** The keys of the matching items are the keys containing the name,
      and each keeps its value. */
  lemma {:induction false} MatchingKeys(data: seq<(string, Val)>, m: string)
    requires UniqueKeys(data)
    ensures UniqueKeys(Matching(data, m))
    decreases |data|
  {
    if |data| > 0 {
      var rest := data[1..];
      MatchingKeys(rest, m);
      var tail := Matching(rest, m);
      forall p | p in tail ensures p.0 != data[0].0 {
        var i :| 0 <= i < |rest| && rest[i] == p;
        assert data[i + 1] == p;
      }
    }
  }

  /** The member dictionary of struct `key`, the member names taken one
      after another. */
  function MembersDict(data: seq<(string, Val)>, key: string, names: seq<string>, md: map<string, Val>): (r: map<string, Val>)
    requires UniqueKeys(data)
    ensures MemberKeys(data, key, names, md, r)
    ensures MemberValues(data, key, names, md, r)
    decreases |names|
  {
    if |names| == 0 then md
    else
      var md1 := AddMember(data, key, md, names[0]);
      var r := MembersDict(data, key, names[1..], md1);
      MembersStep(data, key, names, md, md1, r);
      r
  }

  lemma MembersStep(data: seq<(string, Val)>, key: string, names: seq<string>, md: map<string, Val>,
                    md1: map<string, Val>, r: map<string, Val>)
    requires |names| > 0
    requires MemberKeys(data, key, [names[0]], md, md1) && MemberValues(data, key, [names[0]], md, md1)
    requires MemberKeys(data, key, names[1..], md1, r) && MemberValues(data, key, names[1..], md1, r)
    ensures MemberKeys(data, key, names, md, r)
    ensures MemberValues(data, key, names, md, r)
  {
    forall k ensures PickedBy(data, k, names) <==> PickedBy(data, k, [names[0]]) || PickedBy(data, k, names[1..]) {
      PickedSplit(data, k, names);
    }
    CoreTypeSplit(names);
  }

  lemma CoreTypeSplit(names: seq<string>)
    requires |names| > 0
    ensures HasCoreType(names) <==> HasCoreType([names[0]]) || HasCoreType(names[1..])
  {
    if HasCoreType(names) {
      var j :| 0 <= j < |names| && IsCoreType(names[j]);
      if j > 0 {
        assert names[1..][j - 1] == names[j];
      } else {
        assert [names[0]][0] == names[j];
      }
    }
    if HasCoreType(names[1..]) {
      var j :| 0 <= j < |names[1..]| && IsCoreType(names[1..][j]);
      assert names[j + 1] == names[1..][j];
    }
    if HasCoreType([names[0]]) {
      assert IsCoreType([names[0]][0]);
    }
  }

  lemma PickedSplit(data: seq<(string, Val)>, k: string, names: seq<string>)
    requires |names| > 0
    ensures PickedBy(data, k, names) <==> PickedBy(data, k, [names[0]]) || PickedBy(data, k, names[1..])
  {
    if PickedBy(data, k, names) {
      var j :| 0 <= j < |names| && Contains(k, names[j]);
      if j > 0 {
        assert names[1..][j - 1] == names[j];
      } else {
        assert [names[0]][0] == names[j];
      }
    }
    if PickedBy(data, k, names[1..]) {
      var j :| 0 <= j < |names[1..]| && Contains(k, names[1..][j]);
      assert names[j + 1] == names[1..][j];
    }
    if PickedBy(data, k, [names[0]]) {
      var j :| 0 <= j < 1 && Contains(k, [names[0]][j]);
      assert names[0] == [names[0]][j];
    }
  }

  /** The member names of every struct, in order, or `None` when one of
      the struct values does not have the expected shape. */
  function AllNames(structs: seq<(string, Val)>): (r: Option<seq<seq<string>>>)
    ensures r.Some? <==> forall j :: 0 <= j < |structs| ==> MemberNames(structs[j].1).Some?
    ensures r.Some? ==> |r.value| == |structs|
                        && forall j :: 0 <= j < |structs| ==> MemberNames(structs[j].1) == Some(r.value[j])
    decreases |structs|
  {
    if |structs| == 0 then Some([])
    else
      match (MemberNames(structs[0].1), AllNames(structs[1..]))
      case (Some(first), Some(rest)) => Some([first] + rest)
      case _ => None
  }

  /** The second loop: the member dictionary of every struct, from an
      empty dictionary each. */
  function StructEntries(data: seq<(string, Val)>, structs: seq<(string, Val)>, names: seq<seq<string>>,
                         acc: map<string, Entry>): (r: map<string, Entry>)
    requires |names| == |structs| && UniqueKeys(data) && UniqueKeys(structs)
    ensures forall k :: k in r <==> k in acc || HasKey(structs, k)
    ensures forall k :: k in acc && !HasKey(structs, k) ==> r[k] == acc[k]
    ensures forall j :: 0 <= j < |structs| ==>
              structs[j].0 in r && r[structs[j].0].Struct?
              && MemberKeys(data, structs[j].0, names[j], map[], r[structs[j].0].members)
              && MemberValues(data, structs[j].0, names[j], map[], r[structs[j].0].members)
    decreases |structs|
  {
    if |structs| == 0 then acc
    else
      var key := structs[0].0;
      var entry := Struct(MembersDict(data, key, names[0], map[]));
      var r := StructEntries(data, structs[1..], names[1..], acc[key := entry]);
      HeadAndTail(structs);
      forall j | 1 <= j < |structs| ensures structs[1..][j - 1] == structs[j] && names[1..][j - 1] == names[j] {
      }
      r
  }

  /** Every item key picked up by some member name of a struct: the
      `struct_members` list. */
  function CollectedKeys(data: seq<(string, Val)>, names: seq<seq<string>>): (r: seq<string>)
    ensures forall k :: k in r <==> exists j :: 0 <= j < |names| && PickedBy(data, k, names[j])
    decreases |names|
  {
    if |names| == 0 then []
    else
      var r := PickedKeys(data, names[0]) + CollectedKeys(data, names[1..]);
      forall k ensures k in r <==> exists j :: 0 <= j < |names| && PickedBy(data, k, names[j]) {
        if k in CollectedKeys(data, names[1..]) {
          var j :| 0 <= j < |names[1..]| && PickedBy(data, k, names[1..][j]);
          assert names[j + 1] == names[1..][j];
        }
        if exists j :: 0 <= j < |names| && PickedBy(data, k, names[j]) {
          var j :| 0 <= j < |names| && PickedBy(data, k, names[j]);
          if j > 0 {
            assert names[1..][j - 1] == names[j];
          }
        }
      }
      r
  }

  /** The keys picked up by the member names of one struct. */
  function PickedKeys(data: seq<(string, Val)>, names: seq<string>): (r: seq<string>)
    ensures forall k :: k in r <==> PickedBy(data, k, names)
    decreases |names|
  {
    if |names| == 0 then []
    else
      var r := KeysOf(Matching(data, names[0])) + PickedKeys(data, names[1..]);
      forall k ensures k in r <==> PickedBy(data, k, names) {
        PickedSplit(data, k, names);
        assert [names[0]][0] == names[0];
        if k in KeysOf(Matching(data, names[0])) {
          var p :| p in Matching(data, names[0]) && p.0 == k;
          assert p in data;
        }
        if PickedBy(data, k, [names[0]]) {
          var p :| p in data && p.0 == k;
          assert p in Matching(data, names[0]);
        }
      }
      r
  }

  function KeysOf(items: seq<(string, Val)>): (r: seq<string>)
    ensures forall k :: k in r <==> HasKey(items, k)
    decreases |items|
  {
    if |items| == 0 then []
    else
      var r := [items[0].0] + KeysOf(items[1..]);
      HasKeySplit(items);
      r
  }

  /** A key of a list is its first key or a key of the rest. */
  lemma HasKeySplit(items: seq<(string, Val)>)
    requires |items| > 0
    ensures forall k :: HasKey(items, k) <==> k == items[0].0 || HasKey(items[1..], k)
  {
    assert items == [items[0]] + items[1..];
  }

  /** With unique keys, the first key does not come back in the rest. */
  lemma HeadAndTail(items: seq<(string, Val)>)
    requires |items| > 0 && UniqueKeys(items)
    ensures forall k :: HasKey(items, k) <==> k == items[0].0 || HasKey(items[1..], k)
    ensures !HasKey(items[1..], items[0].0)
  {
    HasKeySplit(items);
    forall p | p in items[1..] ensures p.0 != items[0].0 {
      var i :| 0 <= i < |items[1..]| && items[1..][i] == p;
      assert items[i + 1] == p;
    }
  }

  /** The third loop: every item whose key is not a struct key and was not
      picked up as a struct member is copied over. */
  function CopyOthers(items: seq<(string, Val)>, collected: seq<string>, acc: map<string, Entry>): (r: map<string, Entry>)
    requires UniqueKeys(items)
    ensures forall k :: k in r <==> k in acc || (HasKey(items, k) && k !in collected && !IsStructKey(k))
    ensures forall k :: k in acc && IsStructKey(k) ==> r[k] == acc[k]
    ensures forall k :: k in acc && !HasKey(items, k) ==> r[k] == acc[k]
    ensures forall i :: 0 <= i < |items| && items[i].0 !in collected && !IsStructKey(items[i].0) ==>
              items[i].0 in r && r[items[i].0] == Kept(items[i].1)
    decreases |items|
  {
    if |items| == 0 then acc
    else
      var (k, v) := items[0];
      var next := if k in collected || IsStructKey(k) then acc else acc[k := Kept(v)];
      var r := CopyOthers(items[1..], collected, next);
      HeadAndTail(items);
      forall i | 1 <= i < |items| ensures items[1..][i - 1] == items[i] {
      }
      r
  }

  /** An item key picked up by a member name of some struct of `data`. */
  ghost predicate Collected(data: seq<(string, Val)>, k: string) {
    exists p :: p in data && IsStructKey(p.0) && MemberNames(p.1).Some? && PickedBy(data, k, MemberNames(p.1).value)
  }

  /** `union_to_struct`. It fails (Python raises) when a struct value is
      not a dictionary of dictionaries of strings. Otherwise every struct
      key is kept, mapped to the members its names pick up; every other
      key comes from the input and keeps its value; and the other input
      keys are kept exactly when no struct picked them up. */
  function UnionToStruct(data: seq<(string, Val)>): (r: Option<map<string, Entry>>)
    requires UniqueKeys(data)
    ensures r.None? <==> exists p :: p in data && IsStructKey(p.0) && MemberNames(p.1).None?
    ensures r.Some? ==> forall p :: p in data && IsStructKey(p.0) ==>
              p.0 in r.value && r.value[p.0].Struct? && MemberNames(p.1).Some?
              && MemberKeys(data, p.0, MemberNames(p.1).value, map[], r.value[p.0].members)
              && MemberValues(data, p.0, MemberNames(p.1).value, map[], r.value[p.0].members)
    ensures r.Some? ==> forall k :: k in r.value ==> HasKey(data, k)
    ensures r.Some? ==> forall p :: p in data && !IsStructKey(p.0) ==>
              (p.0 in r.value <==> !Collected(data, p.0))
              && (p.0 in r.value ==> r.value[p.0] == Kept(p.1))
  {
    var structs := Matching(data, "struct");
    MatchingKeys(data, "struct");
    match AllNames(structs)
    case None =>
      assert exists p :: p in data && IsStructKey(p.0) && MemberNames(p.1).None? by {
        var j :| 0 <= j < |structs| && MemberNames(structs[j].1).None?;
        assert structs[j] in structs;
      }
      None
    case Some(names) =>
      var r := CopyOthers(data, CollectedKeys(data, names), StructEntries(data, structs, names, map[]));
      StructKeysKept(data, structs, names, r);
      OtherKeysKept(data, structs, names, r);
      Some(r)
  }

  /** The result of the last two loops, when every struct value has the
      expected shape. */
  ghost predicate Restructured(data: seq<(string, Val)>, structs: seq<(string, Val)>, names: seq<seq<string>>,
                               r: map<string, Entry>)
  {
    UniqueKeys(data) && structs == Matching(data, "struct") && UniqueKeys(structs)
    && AllNames(structs) == Some(names)
    && r == CopyOthers(data, CollectedKeys(data, names), StructEntries(data, structs, names, map[]))
  }

  lemma StructKeysKept(data: seq<(string, Val)>, structs: seq<(string, Val)>, names: seq<seq<string>>, r: map<string, Entry>)
    requires Restructured(data, structs, names, r)
    ensures forall p :: p in data && IsStructKey(p.0) ==>
              p.0 in r && r[p.0].Struct? && MemberNames(p.1).Some?
              && MemberKeys(data, p.0, MemberNames(p.1).value, map[], r[p.0].members)
              && MemberValues(data, p.0, MemberNames(p.1).value, map[], r[p.0].members)
  {
    var entries := StructEntries(data, structs, names, map[]);
    forall p | p in data && IsStructKey(p.0)
      ensures p.0 in r && r[p.0].Struct? && MemberNames(p.1).Some?
              && MemberKeys(data, p.0, MemberNames(p.1).value, map[], r[p.0].members)
              && MemberValues(data, p.0, MemberNames(p.1).value, map[], r[p.0].members)
    {
      assert p in structs;
      var j :| 0 <= j < |structs| && structs[j] == p;
    }
  }

  lemma OtherKeysKept(data: seq<(string, Val)>, structs: seq<(string, Val)>, names: seq<seq<string>>, r: map<string, Entry>)
    requires Restructured(data, structs, names, r)
    ensures forall k :: k in r ==> HasKey(data, k)
    ensures forall p :: p in data && !IsStructKey(p.0) ==>
              (p.0 in r <==> !Collected(data, p.0)) && (p.0 in r ==> r[p.0] == Kept(p.1))
  {
    var entries := StructEntries(data, structs, names, map[]);
    forall k | k in entries ensures IsStructKey(k) && HasKey(data, k) {
      var p :| p in structs && p.0 == k;
    }
    forall p | p in data && !IsStructKey(p.0)
      ensures (p.0 in r <==> !Collected(data, p.0)) && (p.0 in r ==> r[p.0] == Kept(p.1))
    {
      CollectedIff(data, structs, names, p.0);
      var i :| 0 <= i < |data| && data[i] == p;
    }
  }

  /** The `struct_members` list holds exactly the collected keys. */
  lemma CollectedIff(data: seq<(string, Val)>, structs: seq<(string, Val)>, names: seq<seq<string>>, k: string)
    requires structs == Matching(data, "struct") && AllNames(structs) == Some(names)
    ensures k in CollectedKeys(data, names) <==> Collected(data, k)
  {
    if k in CollectedKeys(data, names) {
      var j :| 0 <= j < |names| && PickedBy(data, k, names[j]);
      assert structs[j] in structs;
    }
    if Collected(data, k) {
      var p :| p in data && IsStructKey(p.0) && MemberNames(p.1).Some? && PickedBy(data, k, MemberNames(p.1).value);
      assert p in structs;
      var j :| 0 <= j < |structs| && structs[j] == p;
      assert PickedBy(data, k, names[j]);
    }
  }
}
