/** The interface language: Russian text is the key, and English is looked up by a binary search over hashes. */
module Lang {
  import opened Bytes
  import opened Words
  import Vectors

  const RUSSIAN: int := 0
  const ENGLISH: int := 1

  const FNV_BASIS: u32 := 2166136261
  const FNV_PRIME: nat := 16777619

  /** A C string, as the bytes before its terminator. */
  type Text = seq<byte>

  datatype Entry = Entry(ru: Text, en: Text)

  /** The 32-bit FNV-1a hash. */
  function Hash(s: Text): u32 {
    if s == [] then FNV_BASIS
    else Xor32(Hash(s[..|s| - 1]), s[|s| - 1]) * FNV_PRIME % 0x1_0000_0000
  }

  /** The published values for the empty string and for "a". */
  lemma HashExample()
    ensures Hash([]) == 0x811c9dc5 && Hash([0x61]) == 0xe40c292c
  {
    hide Xor32;
    Vectors.WordPlus(0x81, 0x1c, 0x9d, 0xc5, 0, 0, 0, 0x61);
    assert [0x61][..0] == [];
  }

  method HashOf(s: Text) returns (h: u32)
    ensures h == Hash(s)
  {
    h := FNV_BASIS;
    var i := 0;
    assert s[..0] == [];
    while i < |s|
      invariant 0 <= i <= |s| && h == Hash(s[..i])
    {
      h := Xor32(h, s[i]);
      h := h * FNV_PRIME % 0x1_0000_0000;
      i := i + 1;
      assert s[..i][..i - 1] == s[..i - 1];
    }
    assert s[..i] == s;
  }

  /** What a linear search of the table finds. */
  function FirstMatch(table: seq<Entry>, ru: Text): Option<Text> {
    if table == [] then None
    else if table[0].ru == ru then Some(table[0].en)
    else FirstMatch(table[1..], ru)
  }

  /** Linear search finds the first entry with the text, whatever its position. */
  lemma {:induction false} FirstMatchAt(table: seq<Entry>, ru: Text, i: nat)
    requires i < |table| && table[i].ru == ru
    requires forall j :: 0 <= j < i ==> table[j].ru != ru
    ensures FirstMatch(table, ru) == Some(table[i].en)
  {
    if i > 0 {
      assert table[0].ru != ru;
      assert forall j :: 0 <= j < i - 1 ==> table[1..][j] == table[j + 1];
      FirstMatchAt(table[1..], ru, i - 1);
    }
  }

  lemma {:induction false} FirstMatchNowhere(table: seq<Entry>, ru: Text)
    requires forall j :: 0 <= j < |table| ==> table[j].ru != ru
    ensures FirstMatch(table, ru) == None
  {
    if table != [] {
      assert table[0].ru != ru;
      assert forall j :: 0 <= j < |table| - 1 ==> table[1..][j] == table[j + 1];
      FirstMatchNowhere(table[1..], ru);
    }
  }

  /** The generated table: hashes in order, each that of its entry. Hashes and texts may repeat. */
  predicate Indexed(table: seq<Entry>, hashes: seq<u32>) {
    && |hashes| == |table|
    && (forall i, j :: 0 <= i <= j < |hashes| ==> hashes[i] <= hashes[j])
    && (forall i :: 0 <= i < |table| ==> hashes[i] == Hash(table[i].ru))
  }

  function Translated(table: seq<Entry>, ru: Text): Text {
    match FirstMatch(table, ru)
    case Some(en) => en
    case None => ru
  }

  /** The search itself, with English chosen: over a generated table it agrees with linear search, and over any table
      it returns its argument or some translation of it. */
  method Look(table: seq<Entry>, hashes: seq<u32>, ru: Text) returns (r: Text)
    requires |hashes| == |table|
    ensures Indexed(table, hashes) ==> r == Translated(table, ru)
    ensures r == ru || exists i :: 0 <= i < |table| && table[i].ru == ru && table[i].en == r
  {
    hide Hash;
    var h := HashOf(ru);
    ghost var indexed := Indexed(table, hashes);
    var lo: int := 0;
    var hi: int := |hashes| - 1;
    while lo <= hi
      invariant 0 <= lo <= |hashes| && -1 <= hi < |hashes|
      invariant indexed ==> forall j :: 0 <= j < lo ==> hashes[j] < h
      invariant indexed ==> forall j :: hi < j < |hashes| ==> hashes[j] > h
      decreases hi - lo + 1
    {
      var mid := lo + (hi - lo) / 2;
      if hashes[mid] < h {
        lo := mid + 1;
      } else if hashes[mid] > h {
        hi := mid - 1;
      } else {
        var i := mid;
        while i > 0 && hashes[i - 1] == h
          invariant 0 <= i <= mid && hashes[i] == h
        {
          i := i - 1;
        }
        assert indexed ==> forall j :: 0 <= j < i ==> hashes[j] < h;
        while i < |hashes| && hashes[i] == h
          invariant mid >= 0 && 0 <= i <= |hashes|
          invariant indexed ==> forall j :: 0 <= j < i ==> table[j].ru != ru
        {
          if table[i].ru == ru {
            if indexed {
              FirstMatchAt(table, ru, i);
            }
            return table[i].en;
          }
          i := i + 1;
        }
        if indexed {
          NoneBeyond(table, hashes, ru, i);
        }
        return ru;
      }
    }
    if indexed {
      assert forall j :: 0 <= j < |table| ==> hashes[j] != h;
      FirstMatchNowhere(table, ru);
    }
    r := ru;
  }

  /** Past the run that shares the hash there is nothing left to find. */
  lemma NoneBeyond(table: seq<Entry>, hashes: seq<u32>, ru: Text, i: nat)
    requires Indexed(table, hashes) && i <= |table|
    requires forall j :: 0 <= j < i ==> table[j].ru != ru
    requires i < |table| ==> hashes[i] != Hash(ru)
    requires exists m :: 0 <= m < i && hashes[m] == Hash(ru)
    ensures FirstMatch(table, ru) == None
  {
    hide Hash;
    var m :| 0 <= m < i && hashes[m] == Hash(ru);
    forall j | i <= j < |table|
      ensures table[j].ru != ru
    {
      assert hashes[m] <= hashes[i] <= hashes[j];
    }
    FirstMatchNowhere(table, ru);
  }

  /** The chosen language and the stored setting; chosen is negative until first asked for. */
  class Language {
    const table: seq<Entry>
    const hashes: seq<u32>
    const systemIsRussian: bool
    var chosen: int
    var setting: int

    ghost predicate Valid()
      reads this
    {
      |hashes| == |table| && (chosen == -1 || chosen == RUSSIAN || chosen == ENGLISH)
    }

    /** The language the next question is answered in. */
    function Effective(): (l: int)
      reads this
      ensures Valid() ==> l == RUSSIAN || l == ENGLISH
    {
      if chosen >= 0 then chosen
      else if setting == RUSSIAN || setting == ENGLISH then setting
      else if systemIsRussian then RUSSIAN else ENGLISH
    }

    /** A new process, nothing chosen yet, with whatever the settings hold. */
    constructor (table: seq<Entry>, hashes: seq<u32>, systemIsRussian: bool, setting: int)
      requires |hashes| == |table|
      ensures Valid() && chosen == -1 && this.setting == setting
      ensures this.table == table && this.hashes == hashes && this.systemIsRussian == systemIsRussian
    {
      this.table, this.hashes, this.systemIsRussian := table, hashes, systemIsRussian;
      this.setting, chosen := setting, -1;
    }

    method Init()
      requires Valid()
      modifies this
      ensures Valid() && setting == old(setting)
      ensures setting == RUSSIAN || setting == ENGLISH ==> chosen == setting
      ensures !(setting == RUSSIAN || setting == ENGLISH) ==> chosen == if systemIsRussian then RUSSIAN else ENGLISH
    {
      var stored := setting;
      if stored != RUSSIAN && stored != ENGLISH {
        stored := if systemIsRussian then RUSSIAN else ENGLISH;
      }
      chosen := stored;
    }

    method Current() returns (l: int)
      requires Valid()
      modifies this
      ensures Valid() && l == chosen == old(Effective()) && setting == old(setting)
    {
      if chosen < 0 {
        Init();
      }
      l := chosen;
    }

    /** An unknown language is ignored; a known one is used at once and stored. */
    method Set(l: int)
      requires Valid()
      modifies this
      ensures Valid()
      ensures l == RUSSIAN || l == ENGLISH ==> chosen == setting == l
      ensures l != RUSSIAN && l != ENGLISH ==> chosen == old(chosen) && setting == old(setting)
    {
      if l != RUSSIAN && l != ENGLISH {
        return;
      }
      chosen := l;
      setting := l;
    }

    /** Russian in, the chosen language out; nothing in, an empty string out. */
    method Tr(ru: Option<Text>) returns (r: Text)
      requires Valid()
      modifies this
      ensures Valid() && setting == old(setting) && Effective() == old(Effective())
      ensures ru.None? ==> r == [] && chosen == old(chosen)
      ensures ru.Some? && Effective() == RUSSIAN ==> r == ru.value
      ensures ru.Some? && Effective() == ENGLISH ==>
                (Indexed(table, hashes) ==> r == Translated(table, ru.value)) &&
                (r == ru.value || exists i :: 0 <= i < |table| && table[i].ru == ru.value && table[i].en == r)
    {
      if ru.None? {
        return [];
      }
      var l := Current();
      if l == RUSSIAN {
        return ru.value;
      }
      r := Look(table, hashes, ru.value);
    }
  }

  /** A choice outlives the process that made it. */
  method ChoiceSurvives(first: Language, l: int) returns (next: Language)
    requires first.Valid() && (l == RUSSIAN || l == ENGLISH)
    modifies first
    ensures first.Effective() == l
    ensures fresh(next) && next.Valid() && next.Effective() == l
  {
    first.Set(l);
    next := new Language(first.table, first.hashes, first.systemIsRussian, first.setting);
  }
}
