/** Constants that the server (backend/api.php) and the client (frontend/src/App.tsx)
    each carry a copy of: the seven-category preset and the Portuguese month names. */
module Catalogue {
  /** A row of the category catalogue: its key and its display label (`caption`, since `label` is a Dafny keyword). */
  datatype Category = Category(code: string, caption: string)

  /** The preset catalogue, in the order both sides list it. */
  const Preset: seq<Category> := [
    Category("IC", "IC"),
    Category("ABERTO", "ABERTO"),
    Category("FIXO", "FIXO"),
    Category("EAD", "EAD"),
    Category("PROJETOS", "PROJETOS CORP."),
    Category("OUTROS", "OUTROS"),
    Category("INVEST", "INVESTIMENTOS")
  ]

  /** Month names, January first. */
  const MonthNames: seq<string> := [
    "Janeiro", "Fevereiro", "Março", "Abril", "Maio", "Junho",
    "Julho", "Agosto", "Setembro", "Outubro", "Novembro", "Dezembro"
  ]

  /** The name of calendar month `m` (1 = January). */
  function MonthName(m: int): string
    requires 1 <= m <= 12
  {
    MonthNames[m - 1]
  }

  /** The first `n` preset rows as a code -> caption table. */
  function PresetPrefix(n: nat): map<string, string>
    requires n <= |Preset|
  {
    map i | 0 <= i < n :: Preset[i].code := Preset[i].caption
  }

  /** The catalogue a first seeding writes. */
  function PresetTable(): map<string, string>
  {
    PresetPrefix(|Preset|)
  }

  /** The seven preset codes. */
  const PresetCodes: set<string> := {"IC", "ABERTO", "FIXO", "EAD", "PROJETOS", "OUTROS", "INVEST"}

  /** The seeded table is keyed by exactly the preset codes. */
  lemma PresetTableKeys()
    ensures PresetTable().Keys == PresetCodes
  {
    forall c | c in PresetTable() ensures c in PresetCodes {
      var i :| 0 <= i < |Preset| && Preset[i].code == c;
    }
    forall c | c in PresetCodes ensures c in PresetTable() {
      if c == "IC" { assert Preset[0].code == c; }
      else if c == "ABERTO" { assert Preset[1].code == c; }
      else if c == "FIXO" { assert Preset[2].code == c; }
      else if c == "EAD" { assert Preset[3].code == c; }
      else if c == "PROJETOS" { assert Preset[4].code == c; }
      else if c == "OUTROS" { assert Preset[5].code == c; }
      else { assert Preset[6].code == c; }
    }
  }

  /** The seeded table holds seven pairs. */
  lemma PresetTableSize()
    ensures |PresetTable()| == |Preset| == 7
  {
    PresetTableKeys();
    var codes: set<string> := {};
    codes := codes + {"IC"};
    assert |codes| == 1;
    codes := codes + {"ABERTO"};
    assert |codes| == 2;
    codes := codes + {"FIXO"};
    assert |codes| == 3;
    codes := codes + {"EAD"};
    assert |codes| == 4;
    codes := codes + {"PROJETOS"};
    assert |codes| == 5;
    codes := codes + {"OUTROS"};
    assert |codes| == 6;
    codes := codes + {"INVEST"};
    assert |codes| == 7;
    assert codes == PresetCodes;
  }

  /** Each preset code is seeded with the caption the preset gives it. */
  lemma PresetTableValues(i: int)
    requires 0 <= i < |Preset|
    ensures Preset[i].code in PresetTable() && PresetTable()[Preset[i].code] == Preset[i].caption
  {
  }

  /** Inserting the next preset row extends the table by exactly that row. */
  lemma PresetPrefixStep(n: nat)
    requires n < |Preset|
    ensures PresetPrefix(n + 1) == PresetPrefix(n)[Preset[n].code := Preset[n].caption]
  {
    var next := Preset[n];
    forall i | 0 <= i < n ensures Preset[i].code != next.code {
      PresetCodesDistinct(i, n);
    }
  }

  /** No two preset rows share a code. */
  lemma PresetCodesDistinct(i: int, j: int)
    requires 0 <= i < j < |Preset|
    ensures Preset[i].code != Preset[j].code
  {
    var codes := [Preset[0].code, Preset[1].code, Preset[2].code, Preset[3].code, Preset[4].code, Preset[5].code, Preset[6].code];
    assert codes == ["IC", "ABERTO", "FIXO", "EAD", "PROJETOS", "OUTROS", "INVEST"];
  }
}
