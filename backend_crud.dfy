/** The SQLAlchemy data layer of the FastAPI backend: six tables held as sequences of
    rows, and the query and write helpers the endpoints call. A helper that finds no
    row commits nothing; the bulk deletes it issued first are rolled back when the
    session closes, so the tables are left as they were. */
module Crud {
  import opened Wrappers
  import Records
  import Text

  datatype Usuario = Usuario(id: int, nickname: string, password: string, admin: bool)
  datatype Indicado = Indicado(id: int, nome: string, foto: Option<string>)
  datatype Categoria = Categoria(id: int, nome: string, descricao: Option<string>, banner: Option<string>, isActive: bool)
  datatype IndicadoCategoria = IndicadoCategoria(indicadoId: int, categoriaId: int)
  /** A ballot: which nominee got a vote in which category; it names no user. */
  datatype VotoCategoria = VotoCategoria(indicadoId: int, categoriaId: int)
  /** The record that a user has voted in a category. */
  datatype VotoUsuario = VotoUsuario(categoriaId: int, usuarioId: int)

  function UsuarioId(u: Usuario): int { u.id }
  function Nickname(u: Usuario): string { u.nickname }
  function IndicadoId(i: Indicado): int { i.id }
  function CategoriaId(c: Categoria): int { c.id }
  function LinkIndicado(l: IndicadoCategoria): int { l.indicadoId }
  function LinkCategoria(l: IndicadoCategoria): int { l.categoriaId }
  function VotoIndicado(v: VotoCategoria): int { v.indicadoId }
  function VotoCategoriaOf(v: VotoCategoria): int { v.categoriaId }
  function VoterAndCategory(v: VotoUsuario): (int, int) { (v.usuarioId, v.categoriaId) }

  /** The position of the first row with that key, as `.first()` finds it. */
  function FirstIndex<T, K(==)>(rows: seq<T>, idOf: T -> K, id: K): (r: Option<nat>)
    ensures r.None? <==> forall i :: 0 <= i < |rows| ==> idOf(rows[i]) != id
    ensures r.Some? ==> r.value < |rows| && idOf(rows[r.value]) == id &&
                        (forall j :: 0 <= j < r.value ==> idOf(rows[j]) != id) &&
                        Records.Find(rows, idOf, id) == Some(rows[r.value])
  {
    if rows == [] then None
    else if idOf(rows[0]) == id then Some(0)
    else
      var t := FirstIndex(rows[1..], idOf, id);
      assert forall i :: 1 <= i < |rows| ==> rows[1..][i - 1] == rows[i];
      match t
      case None => None
      case Some(i) => Some(i + 1)
  }

  /** A bulk `.filter(key == k).delete()`: the rows whose key is not k, in order. */
  function Without<T>(rows: seq<T>, key: T -> int, k: int): (r: seq<T>)
    ensures |r| <= |rows|
  {
    if rows == [] then []
    else Without(rows[..|rows| - 1], key, k) + (if key(rows[|rows| - 1]) != k then [rows[|rows| - 1]] else [])
  }

  /** The bulk delete keeps exactly the rows whose key differs, and a key no row has
      deletes nothing. */
  lemma WithoutSpec<T>(rows: seq<T>, key: T -> int, k: int)
    ensures var r := Without(rows, key, k);
            (forall i :: 0 <= i < |r| ==> key(r[i]) != k && r[i] in rows) &&
            (forall i :: 0 <= i < |rows| && key(rows[i]) != k ==> rows[i] in r) &&
            ((forall i :: 0 <= i < |rows| ==> key(rows[i]) != k) ==> r == rows)
  {
    WithoutSound(rows, key, k);
    WithoutComplete(rows, key, k);
    if forall i :: 0 <= i < |rows| ==> key(rows[i]) != k {
      WithoutNoMatch(rows, key, k);
    }
  }

  /** The last row is kept exactly when its key differs. */
  lemma WithoutLast<T>(rows: seq<T>, key: T -> int, k: int)
    requires rows != []
    ensures Without(rows, key, k) ==
            Without(rows[..|rows| - 1], key, k) + (if key(rows[|rows| - 1]) != k then [rows[|rows| - 1]] else [])
  {
  }

  lemma {:induction false} WithoutSound<T>(rows: seq<T>, key: T -> int, k: int)
    ensures var r := Without(rows, key, k); forall i :: 0 <= i < |r| ==> key(r[i]) != k && r[i] in rows
  {
    if rows != [] {
      var pre, last := rows[..|rows| - 1], rows[|rows| - 1];
      WithoutSound(pre, key, k);
      WithoutLast(rows, key, k);
      var front := Without(pre, key, k);
      var r := Without(rows, key, k);
      forall i | 0 <= i < |r| ensures key(r[i]) != k && r[i] in rows {
        if i < |front| {
          assert r[i] == front[i];
          assert front[i] in pre;
        } else {
          assert r[i] == last;
        }
      }
    }
  }

  lemma {:induction false} WithoutComplete<T>(rows: seq<T>, key: T -> int, k: int)
    ensures var r := Without(rows, key, k); forall i :: 0 <= i < |rows| && key(rows[i]) != k ==> rows[i] in r
  {
    if rows != [] {
      var pre, last := rows[..|rows| - 1], rows[|rows| - 1];
      WithoutComplete(pre, key, k);
      WithoutLast(rows, key, k);
      var front := Without(pre, key, k);
      var r := Without(rows, key, k);
      forall i | 0 <= i < |rows| && key(rows[i]) != k ensures rows[i] in r {
        if i < |pre| {
          assert rows[i] == pre[i];
          assert rows[i] in front;
        } else {
          assert r[|r| - 1] == last;
        }
      }
    }
  }

  lemma {:induction false} WithoutNoMatch<T>(rows: seq<T>, key: T -> int, k: int)
    requires forall i :: 0 <= i < |rows| ==> key(rows[i]) != k
    ensures Without(rows, key, k) == rows
  {
    if rows != [] {
      var pre := rows[..|rows| - 1];
      assert forall i :: 0 <= i < |pre| ==> key(pre[i]) != k by {
        forall i | 0 <= i < |pre| ensures key(pre[i]) != k {
          assert pre[i] == rows[i];
        }
      }
      WithoutNoMatch(pre, key, k);
      WithoutLast(rows, key, k);
      assert rows == pre + [rows[|rows| - 1]];
    }
  }

  /** `query.offset(skip).limit(limit)`. */
  function Page<T>(rows: seq<T>, skip: nat, limit: nat): (r: seq<T>)
    ensures |r| == Text.Min(limit, Text.Max(|rows| - skip, 0))
    ensures forall i :: 0 <= i < |r| ==> r[i] == rows[skip + i]
  {
    var from := Text.Min(skip, |rows|);
    var n := Text.Min(limit, |rows| - from);
    rows[from..from + n]
  }

  function OfStatus(cs: seq<Categoria>, active: bool): (r: seq<Categoria>)
    ensures |r| <= |cs|
  {
    if cs == [] then []
    else OfStatus(cs[..|cs| - 1], active) + (if cs[|cs| - 1].isActive == active then [cs[|cs| - 1]] else [])
  }

  /** The filter keeps exactly the categories with that status. */
  lemma {:induction false} OfStatusSpec(cs: seq<Categoria>, active: bool)
    ensures forall x :: x in OfStatus(cs, active) <==> x in cs && x.isActive == active
  {
    if cs != [] {
      var pre, last := cs[..|cs| - 1], cs[|cs| - 1];
      OfStatusSpec(pre, active);
      assert OfStatus(cs, active) == OfStatus(pre, active) + (if last.isActive == active then [last] else []);
      assert cs == pre + [last];
    }
  }

  /** `get_categorias(skip, limit, is_active)`. */
  function GetCategorias(cs: seq<Categoria>, skip: nat, limit: nat, isActive: Option<bool>): (r: seq<Categoria>)
    ensures |r| <= limit
    ensures isActive.Some? ==> forall i :: 0 <= i < |r| ==> r[i].isActive == isActive.value
    ensures forall i :: 0 <= i < |r| ==> r[i] in cs
    ensures isActive.None? ==> r == Page(cs, skip, limit)
    ensures isActive.Some? ==> r == Page(OfStatus(cs, isActive.value), skip, limit)
  {
    if isActive.Some? then
      var filtered := OfStatus(cs, isActive.value);
      OfStatusSpec(cs, isActive.value);
      var r := Page(filtered, skip, limit);
      assert forall i :: 0 <= i < |r| ==> r[i] in filtered;
      r
    else
      var r := Page(cs, skip, limit);
      assert forall i :: 0 <= i < |r| ==> r[i] in cs;
      r
  }

  /** A filtered page that starts at the first row and is long enough holds every
      category with the requested status and nothing else. */
  lemma FilteredPageComplete(cs: seq<Categoria>, active: bool, limit: nat)
    requires limit >= |cs|
    ensures forall x :: x in GetCategorias(cs, 0, limit, Some(active)) <==> x in cs && x.isActive == active
  {
    var f := OfStatus(cs, active);
    OfStatusSpec(cs, active);
    var r := GetCategorias(cs, 0, limit, Some(active));
    assert r == Page(f, 0, limit);
    assert |r| == |f|;
    assert r == f by {
      forall i | 0 <= i < |r| ensures r[i] == f[i] {
      }
    }
  }

  /** A page of the whole table holds exactly the rows after the first skip, up to limit. */
  lemma PagesCoverTable<T>(rows: seq<T>, skip: nat, limit: nat)
    requires skip + limit <= |rows|
    ensures Page(rows, 0, skip) + Page(rows, skip, limit) == rows[..skip + limit]
  {
  }

  /** The field assignments of `update_categoria`: a field given as None keeps its value,
      and the banner changes only when a new banner path is given. */
  function PatchCategoria(c: Categoria, nome: Option<string>, descricao: Option<string>, bannerPath: Option<string>)
    : (r: Categoria)
    ensures r.id == c.id && r.isActive == c.isActive
    ensures nome.None? ==> r.nome == c.nome
    ensures descricao.None? ==> r.descricao == c.descricao
    ensures bannerPath.None? ==> r.banner == c.banner
  {
    c.(nome := if nome.Some? then nome.value else c.nome,
       descricao := if descricao.Some? then descricao else c.descricao,
       banner := if bannerPath.Some? then bannerPath else c.banner)
  }

  /** An empty update changes nothing, and applying the same update twice is the same
      as applying it once. */
  lemma PatchCategoriaLaws(c: Categoria, nome: Option<string>, descricao: Option<string>, bannerPath: Option<string>)
    ensures PatchCategoria(c, None, None, None) == c
    ensures PatchCategoria(PatchCategoria(c, nome, descricao, bannerPath), nome, descricao, bannerPath) ==
            PatchCategoria(c, nome, descricao, bannerPath)
    ensures nome.Some? && descricao.Some? && bannerPath.Some? ==>
            PatchCategoria(c, nome, descricao, bannerPath) == Categoria(c.id, nome.value, descricao, bannerPath, c.isActive)
  {
  }

  /** The field assignments of `update_indicado`. */
  function PatchIndicado(i: Indicado, nome: Option<string>, fotoPath: Option<string>): (r: Indicado)
    ensures r.id == i.id
    ensures nome.None? ==> r.nome == i.nome
    ensures fotoPath.None? ==> r.foto == i.foto
  {
    i.(nome := if nome.Some? then nome.value else i.nome, foto := if fotoPath.Some? then fotoPath else i.foto)
  }

  lemma PatchIndicadoLaws(i: Indicado, nome: Option<string>, fotoPath: Option<string>)
    ensures PatchIndicado(i, None, None) == i
    ensures PatchIndicado(PatchIndicado(i, nome, fotoPath), nome, fotoPath) == PatchIndicado(i, nome, fotoPath)
    ensures nome.Some? && fotoPath.Some? ==> PatchIndicado(i, nome, fotoPath) == Indicado(i.id, nome.value, fotoPath)
  {
  }

  /** `get_votos_by_user_and_category`. */
  function GetVotosByUserAndCategory(rows: seq<VotoUsuario>, usuarioId: int, categoriaId: int): (r: Option<VotoUsuario>)
    ensures r.Some? <==> VotoUsuario(categoriaId, usuarioId) in rows
    ensures r.Some? ==> r.value == VotoUsuario(categoriaId, usuarioId)
  {
    var r := Records.Find(rows, VoterAndCategory, (usuarioId, categoriaId));
    assert VotoUsuario(categoriaId, usuarioId) in rows ==>
           VoterAndCategory(VotoUsuario(categoriaId, usuarioId)) == (usuarioId, categoriaId);
    r
  }

  /** Every user has at most one VotosUsuario row per category. */
  ghost predicate OneVotePerCategory(rows: seq<VotoUsuario>) {
    forall i, j :: 0 <= i < j < |rows| ==> rows[i] != rows[j]
  }

  function MaxUserId(users: seq<Usuario>): (m: int)
    ensures forall i :: 0 <= i < |users| ==> users[i].id <= m
  {
    if users == [] then 0
    else Text.Max(MaxUserId(users[..|users| - 1]), users[|users| - 1].id)
  }

  /** No two rows share a key. */
  ghost predicate UniqueKeys<T>(rows: seq<T>, key: T -> int) {
    forall i, j :: 0 <= i < j < |rows| ==> key(rows[i]) != key(rows[j])
  }

  class Database {
    var usuarios: seq<Usuario>
    var indicados: seq<Indicado>
    var categorias: seq<Categoria>
    var ligacoes: seq<IndicadoCategoria>
    var votos: seq<VotoCategoria>
    var votosUsuario: seq<VotoUsuario>

    /** Primary keys are unique. */
    ghost predicate Valid()
      reads this
    {
      UniqueKeys(usuarios, UsuarioId) && UniqueKeys(indicados, IndicadoId) && UniqueKeys(categorias, CategoriaId)
    }

    constructor()
      ensures Valid()
      ensures usuarios == [] && indicados == [] && categorias == [] && ligacoes == [] && votos == [] && votosUsuario == []
    {
      usuarios, indicados, categorias, ligacoes, votos, votosUsuario := [], [], [], [], [], [];
    }

    /** `create_user`: store the nickname with the hash of the password; the user is
        not an admin. The new row gets one more than the largest id in the table. */
    method CreateUser(nickname: string, hashed: string) returns (u: Usuario)
      requires Valid()
      modifies this
      ensures Valid()
      ensures u == Usuario(MaxUserId(old(usuarios)) + 1, nickname, hashed, false)
      ensures usuarios == old(usuarios) + [u]
      ensures indicados == old(indicados) && categorias == old(categorias) && ligacoes == old(ligacoes)
      ensures votos == old(votos) && votosUsuario == old(votosUsuario)
    {
      u := Usuario(MaxUserId(usuarios) + 1, nickname, hashed, false);
      AppendNewKey(usuarios, u, UsuarioId);
      usuarios := usuarios + [u];
    }

    /** `update_categoria`. */
    method UpdateCategoria(id: int, nome: Option<string>, descricao: Option<string>, bannerPath: Option<string>)
      returns (r: Option<Categoria>)
      requires Valid()
      modifies this
      ensures Valid()
      ensures r.None? <==> Records.Find(old(categorias), CategoriaId, id).None?
      ensures r.None? ==> categorias == old(categorias)
      ensures r.Some? ==> r.value == PatchCategoria(Records.Find(old(categorias), CategoriaId, id).value, nome, descricao, bannerPath)
      ensures r.Some? ==> categorias == old(categorias)[FirstIndex(old(categorias), CategoriaId, id).value := r.value]
      ensures usuarios == old(usuarios) && indicados == old(indicados) && ligacoes == old(ligacoes)
      ensures votos == old(votos) && votosUsuario == old(votosUsuario)
    {
      var at := FirstIndex(categorias, CategoriaId, id);
      if at.None? {
        return None;
      }
      var c := PatchCategoria(categorias[at.value], nome, descricao, bannerPath);
      categorias := categorias[at.value := c];
      r := Some(c);
    }

    /** `update_categoria_status`: only is_active changes. */
    method UpdateCategoriaStatus(id: int, isActive: bool) returns (r: Option<Categoria>)
      requires Valid()
      modifies this
      ensures Valid()
      ensures r.None? <==> Records.Find(old(categorias), CategoriaId, id).None?
      ensures r.None? ==> categorias == old(categorias)
      ensures r.Some? ==> r.value == Records.Find(old(categorias), CategoriaId, id).value.(isActive := isActive)
      ensures r.Some? ==> categorias == old(categorias)[FirstIndex(old(categorias), CategoriaId, id).value := r.value]
      ensures usuarios == old(usuarios) && indicados == old(indicados) && ligacoes == old(ligacoes)
      ensures votos == old(votos) && votosUsuario == old(votosUsuario)
    {
      var at := FirstIndex(categorias, CategoriaId, id);
      if at.None? {
        return None;
      }
      var c := categorias[at.value].(isActive := isActive);
      categorias := categorias[at.value := c];
      r := Some(c);
    }

    /** `update_indicado`. */
    method UpdateIndicado(id: int, nome: Option<string>, fotoPath: Option<string>) returns (r: Option<Indicado>)
      requires Valid()
      modifies this
      ensures Valid()
      ensures r.None? <==> Records.Find(old(indicados), IndicadoId, id).None?
      ensures r.None? ==> indicados == old(indicados)
      ensures r.Some? ==> r.value == PatchIndicado(Records.Find(old(indicados), IndicadoId, id).value, nome, fotoPath)
      ensures r.Some? ==> indicados == old(indicados)[FirstIndex(old(indicados), IndicadoId, id).value := r.value]
      ensures usuarios == old(usuarios) && categorias == old(categorias) && ligacoes == old(ligacoes)
      ensures votos == old(votos) && votosUsuario == old(votosUsuario)
    {
      var at := FirstIndex(indicados, IndicadoId, id);
      if at.None? {
        return None;
      }
      var i := PatchIndicado(indicados[at.value], nome, fotoPath);
      indicados := indicados[at.value := i];
      r := Some(i);
    }

    /** `delete_categoria`: the category's ballots and links go with it; the
        VotosUsuario rows of the category are kept. */
    method DeleteCategoria(id: int) returns (r: Option<Categoria>)
      requires Valid()
      modifies this
      ensures Valid()
      ensures r == Records.Find(old(categorias), CategoriaId, id)
      ensures r.None? ==> categorias == old(categorias) && votos == old(votos) && ligacoes == old(ligacoes)
      ensures r.Some? ==> categorias == Without(old(categorias), CategoriaId, id) &&
                          votos == Without(old(votos), VotoCategoriaOf, id) &&
                          ligacoes == Without(old(ligacoes), LinkCategoria, id)
      ensures usuarios == old(usuarios) && indicados == old(indicados) && votosUsuario == old(votosUsuario)
    {
      r := Records.Find(categorias, CategoriaId, id);
      if r.None? {
        return;
      }
      WithoutKeepsUnique(categorias, CategoriaId, id);
      categorias, votos, ligacoes := Without(categorias, CategoriaId, id), Without(votos, VotoCategoriaOf, id),
                                     Without(ligacoes, LinkCategoria, id);
    }

    /** `delete_indicado`: the nominee's ballots and links go with it. */
    method DeleteIndicado(id: int) returns (r: Option<Indicado>)
      requires Valid()
      modifies this
      ensures Valid()
      ensures r == Records.Find(old(indicados), IndicadoId, id)
      ensures r.None? ==> indicados == old(indicados) && votos == old(votos) && ligacoes == old(ligacoes)
      ensures r.Some? ==> indicados == Without(old(indicados), IndicadoId, id) &&
                          votos == Without(old(votos), VotoIndicado, id) &&
                          ligacoes == Without(old(ligacoes), LinkIndicado, id)
      ensures usuarios == old(usuarios) && categorias == old(categorias) && votosUsuario == old(votosUsuario)
    {
      r := Records.Find(indicados, IndicadoId, id);
      if r.None? {
        return;
      }
      WithoutKeepsUnique(indicados, IndicadoId, id);
      indicados, votos, ligacoes := Without(indicados, IndicadoId, id), Without(votos, VotoIndicado, id),
                                    Without(ligacoes, LinkIndicado, id);
    }

    /** `create_voto`: one ballot, then one VotosUsuario row; the ballot is returned. */
    method CreateVoto(indicadoId: int, categoriaId: int, usuarioId: int) returns (v: VotoCategoria)
      modifies this
      ensures v == VotoCategoria(indicadoId, categoriaId)
      ensures votos == old(votos) + [v]
      ensures votosUsuario == old(votosUsuario) + [VotoUsuario(categoriaId, usuarioId)]
      ensures usuarios == old(usuarios) && indicados == old(indicados) && categorias == old(categorias)
      ensures ligacoes == old(ligacoes)
    {
      v := VotoCategoria(indicadoId, categoriaId);
      votos := votos + [v];
      votosUsuario := votosUsuario + [VotoUsuario(categoriaId, usuarioId)];
    }
  }

  /** Deleting rows by their own key keeps the remaining keys unique. */
  lemma {:induction false} WithoutKeepsUnique<T>(rows: seq<T>, key: T -> int, k: int)
    requires UniqueKeys(rows, key)
    ensures UniqueKeys(Without(rows, key, k), key)
  {
    if rows != [] {
      var front, last := rows[..|rows| - 1], rows[|rows| - 1];
      assert UniqueKeys(front, key) by {
        forall i, j | 0 <= i < j < |front| ensures key(front[i]) != key(front[j]) {
          assert front[i] == rows[i] && front[j] == rows[j];
        }
      }
      WithoutKeepsUnique(front, key, k);
      var pre := Without(front, key, k);
      if key(last) != k {
        WithoutSpec(front, key, k);
        forall i | 0 <= i < |pre| ensures key(pre[i]) != key(last) {
          var j :| 0 <= j < |front| && front[j] == pre[i];
          assert front[j] == rows[j];
        }
        AppendNewKey(pre, last, key);
      }
    }
  }

  lemma AppendNewKey<T>(rows: seq<T>, x: T, key: T -> int)
    requires UniqueKeys(rows, key)
    requires forall i :: 0 <= i < |rows| ==> key(rows[i]) != key(x)
    ensures UniqueKeys(rows + [x], key)
  {
    var r := rows + [x];
    forall i, j | 0 <= i < j < |r| ensures key(r[i]) != key(r[j]) {
      assert r[i] == rows[i];
    }
  }

  /** Appending a VotosUsuario row the table does not hold keeps one row per user and
      category. */
  lemma AppendNewVoteKeepsOne(rows: seq<VotoUsuario>, v: VotoUsuario)
    requires OneVotePerCategory(rows) && v !in rows
    ensures OneVotePerCategory(rows + [v])
  {
    var r := rows + [v];
    forall i, j | 0 <= i < j < |r| ensures r[i] != r[j] {
      assert r[i] == rows[i];
      if j < |rows| {
        assert r[j] == rows[j];
      }
    }
  }
}
