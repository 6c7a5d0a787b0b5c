/** The FastAPI endpoints of the backend that decide who may do what: the bearer-token
    dependencies, registration, login, the category listing, the status switch and
    voting. An endpoint's dependencies run before its body, so their errors come first. */
module Api {
  import opened Wrappers
  import opened Crud
  import Records

  datatype HttpError = HttpError(status: int, detail: string)

  /** `get_user_by_nickname`. */
  function UserByNickname(users: seq<Usuario>, nickname: string): (r: Option<Usuario>)
    ensures r.Some? ==> r.value in users && r.value.nickname == nickname
    ensures r.None? <==> forall i :: 0 <= i < |users| ==> users[i].nickname != nickname
  {
    Records.Find(users, Nickname, nickname)
  }

  /** `get_current_user`: the token is a nickname; an unknown one is refused with 401. */
  function CurrentUser(users: seq<Usuario>, token: string): (r: Result<Usuario, HttpError>)
    ensures r.Err? <==> UserByNickname(users, token).None?
    ensures r.Err? ==> r.error == HttpError(401, "Invalid authentication credentials")
    ensures r.Ok? ==> r.value in users && r.value.nickname == token
  {
    match UserByNickname(users, token)
    case None => Err(HttpError(401, "Invalid authentication credentials"))
    case Some(u) => Ok(u)
  }

  /** `get_current_admin_user`: 401 as above, then 403 for a user who is not an admin. */
  function CurrentAdmin(users: seq<Usuario>, token: string): (r: Result<Usuario, HttpError>)
    ensures CurrentUser(users, token).Err? ==> r == CurrentUser(users, token)
    ensures CurrentUser(users, token).Ok? && !CurrentUser(users, token).value.admin ==>
              r == Err(HttpError(403, "Not enough permissions"))
    ensures r.Ok? <==> CurrentUser(users, token).Ok? && CurrentUser(users, token).value.admin
    ensures r.Ok? ==> r == CurrentUser(users, token)
  {
    match CurrentUser(users, token)
    case Err(e) => Err(e)
    case Ok(u) => if u.admin then Ok(u) else Err(HttpError(403, "Not enough permissions"))
  }

  /** `login`: the access token is the nickname. An unknown nickname and a password that
      does not verify against the stored hash give the same 401. */
  function Login(users: seq<Usuario>, nickname: string, password: string, verify: (string, string) -> bool)
    : (r: Result<string, HttpError>)
    ensures r.Ok? <==> UserByNickname(users, nickname).Some? && verify(password, UserByNickname(users, nickname).value.password)
    ensures r.Ok? ==> r.value == nickname
    ensures r.Err? ==> r.error == HttpError(401, "Incorrect nickname or password")
  {
    match UserByNickname(users, nickname)
    case None => Err(HttpError(401, "Incorrect nickname or password"))
    case Some(u) => if verify(password, u.password) then Ok(u.nickname) else Err(HttpError(401, "Incorrect nickname or password"))
  }

  /** A token from a successful login authenticates as the user who logged in. */
  lemma LoginTokenAuthenticates(users: seq<Usuario>, nickname: string, password: string, verify: (string, string) -> bool)
    requires Login(users, nickname, password, verify).Ok?
    ensures CurrentUser(users, Login(users, nickname, password, verify).value) == Ok(UserByNickname(users, nickname).value)
  {
  }

  /** `read_categorias`: after authentication, an admin sees a page of every category,
      anyone else a page of the active ones. */
  function ReadCategorias(db: seq<Categoria>, users: seq<Usuario>, token: string, skip: nat, limit: nat)
    : (r: Result<seq<Categoria>, HttpError>)
    ensures CurrentUser(users, token).Err? ==> r == Err(CurrentUser(users, token).error)
    ensures CurrentUser(users, token).Ok? && CurrentUser(users, token).value.admin ==>
              r == Ok(GetCategorias(db, skip, limit, None))
    ensures CurrentUser(users, token).Ok? && !CurrentUser(users, token).value.admin ==>
              r == Ok(GetCategorias(db, skip, limit, Some(true)))
  {
    match CurrentUser(users, token)
    case Err(e) => Err(e)
    case Ok(u) => Ok(if u.admin then GetCategorias(db, skip, limit, None) else GetCategorias(db, skip, limit, Some(true)))
  }

  /** A caller who is not an admin is never shown an inactive category, and with a large
      enough first page sees every active one. */
  lemma NonAdminSeesActive(db: seq<Categoria>, users: seq<Usuario>, token: string, limit: nat)
    requires CurrentUser(users, token).Ok? && !CurrentUser(users, token).value.admin
    requires limit >= |db|
    ensures ReadCategorias(db, users, token, 0, limit).Ok?
    ensures forall x :: x in ReadCategorias(db, users, token, 0, limit).value <==> x in db && x.isActive
  {
    FilteredPageComplete(db, true, limit);
  }

  /** `create_user`: a secret code that differs from the configured one (always, when
      none is configured) is refused before any lookup; a taken nickname is refused;
      otherwise the user is created with the hash of the password. */
  method CreateUser(db: Database, secretCode: string, configured: Option<string>, nickname: string, hashed: string)
    returns (r: Result<Usuario, HttpError>)
    requires db.Valid()
    modifies db
    ensures db.Valid()
    ensures configured != Some(secretCode) ==> r == Err(HttpError(400, "Invalid secret code")) && db.usuarios == old(db.usuarios)
    ensures configured == Some(secretCode) && UserByNickname(old(db.usuarios), nickname).Some? ==>
              r == Err(HttpError(400, "Nickname already registered")) && db.usuarios == old(db.usuarios)
    ensures configured == Some(secretCode) && UserByNickname(old(db.usuarios), nickname).None? ==>
              r.Ok? && r.value.nickname == nickname && !r.value.admin && r.value.password == hashed &&
              db.usuarios == old(db.usuarios) + [r.value]
    ensures db.indicados == old(db.indicados) && db.categorias == old(db.categorias) && db.ligacoes == old(db.ligacoes)
    ensures db.votos == old(db.votos) && db.votosUsuario == old(db.votosUsuario)
  {
    if configured != Some(secretCode) {
      return Err(HttpError(400, "Invalid secret code"));
    }
    if UserByNickname(db.usuarios, nickname).Some? {
      return Err(HttpError(400, "Nickname already registered"));
    }
    var u := db.CreateUser(nickname, hashed);
    r := Ok(u);
  }

  /** Registration keeps nicknames unique. */
  ghost predicate UniqueNicknames(users: seq<Usuario>) {
    forall i, j :: 0 <= i < j < |users| ==> users[i].nickname != users[j].nickname
  }

  lemma RegistrationKeepsNicknamesUnique(users: seq<Usuario>, u: Usuario)
    requires UniqueNicknames(users) && UserByNickname(users, u.nickname).None?
    ensures UniqueNicknames(users + [u])
  {
    var r := users + [u];
    forall i, j | 0 <= i < j < |r| ensures r[i].nickname != r[j].nickname {
      assert r[i] == users[i];
      if j < |users| {
        assert r[j] == users[j];
      }
    }
  }

  /** The status endpoint: admin dependency first, then 404 for an unknown category. */
  method UpdateCategoriaStatus(db: Database, token: string, id: int, isActive: bool)
    returns (r: Result<Categoria, HttpError>)
    requires db.Valid()
    modifies db
    ensures db.Valid()
    ensures CurrentAdmin(old(db.usuarios), token).Err? ==>
              r == Err(CurrentAdmin(old(db.usuarios), token).error) && db.categorias == old(db.categorias)
    ensures CurrentAdmin(old(db.usuarios), token).Ok? && Records.Find(old(db.categorias), CategoriaId, id).None? ==>
              r == Err(HttpError(404, "Category not found")) && db.categorias == old(db.categorias)
    ensures r.Ok? ==> r.value == Records.Find(old(db.categorias), CategoriaId, id).value.(isActive := isActive)
    ensures CurrentAdmin(old(db.usuarios), token).Ok? && Records.Find(old(db.categorias), CategoriaId, id).Some? ==>
              r.Ok? && db.categorias == old(db.categorias)[FirstIndex(old(db.categorias), CategoriaId, id).value := r.value]
    ensures db.usuarios == old(db.usuarios) && db.indicados == old(db.indicados) && db.ligacoes == old(db.ligacoes)
    ensures db.votos == old(db.votos) && db.votosUsuario == old(db.votosUsuario)
  {
    var admin := CurrentAdmin(db.usuarios, token);
    if admin.Err? {
      return Err(admin.error);
    }
    var c := db.UpdateCategoriaStatus(id, isActive);
    if c.None? {
      return Err(HttpError(404, "Category not found"));
    }
    r := Ok(c.value);
  }

  /** `votar`: after authentication, refuse with 400 when the user already has a
      VotosUsuario row for the category, otherwise record the vote. */
  method Votar(db: Database, token: string, indicadoId: int, categoriaId: int) returns (r: Result<VotoCategoria, HttpError>)
    modifies db
    ensures CurrentUser(old(db.usuarios), token).Err? ==>
              r == Err(CurrentUser(old(db.usuarios), token).error) &&
              db.votos == old(db.votos) && db.votosUsuario == old(db.votosUsuario)
    ensures CurrentUser(old(db.usuarios), token).Ok? ==>
              var u := CurrentUser(old(db.usuarios), token).value;
              if VotoUsuario(categoriaId, u.id) in old(db.votosUsuario) then
                r == Err(HttpError(400, "User has already voted in this category")) &&
                db.votos == old(db.votos) && db.votosUsuario == old(db.votosUsuario)
              else
                r == Ok(VotoCategoria(indicadoId, categoriaId)) &&
                db.votos == old(db.votos) + [VotoCategoria(indicadoId, categoriaId)] &&
                db.votosUsuario == old(db.votosUsuario) + [VotoUsuario(categoriaId, u.id)]
    ensures old(OneVotePerCategory(db.votosUsuario)) ==> OneVotePerCategory(db.votosUsuario)
    ensures db.usuarios == old(db.usuarios) && db.indicados == old(db.indicados) && db.categorias == old(db.categorias)
    ensures db.ligacoes == old(db.ligacoes)
  {
    var user := CurrentUser(db.usuarios, token);
    if user.Err? {
      return Err(user.error);
    }
    var u := user.value;
    if GetVotosByUserAndCategory(db.votosUsuario, u.id, categoriaId).Some? {
      return Err(HttpError(400, "User has already voted in this category"));
    }
    if OneVotePerCategory(db.votosUsuario) {
      AppendNewVoteKeepsOne(db.votosUsuario, VotoUsuario(categoriaId, u.id));
    }
    var v := db.CreateVoto(indicadoId, categoriaId, u.id);
    r := Ok(v);
  }
}
