/**
 The guarded file store: four file operations, each allowed only when the
 user holds the operation's fixed permission token. The files themselves are
 an abstract map from a path to its content.
 */
module FileSystem {
  import opened Registry

  /** What a guarded operation did, mirroring the outcome it reports. */
  datatype Outcome<T> = Denied | NotFound | Ok(value: T)

  datatype FileOp = Create | Read | Write | Delete

  /** The permission token each operation checks. */
  function Token(op: FileOp): string
  {
    match op
    case Create => "crear"
    case Read => "leer"
    case Write => "escribir"
    case Delete => "eliminar"
  }

  /** A registry together with the files it guards. */
  class RbacFileSystem {
    const registry: Rbac
    var files: map<string, string>

    ghost predicate Valid()
      reads registry
    {
      registry.Valid()
    }

    /** Whether `user` currently holds the token that `op` checks. */
    ghost predicate Allows(user: string, op: FileOp)
      reads registry
      requires Valid()
    {
      Token(op) in registry.Permissions(user)
    }

    /** An empty registry over the files already present. */
    constructor (existing: map<string, string>)
      ensures Valid() && fresh(registry)
      ensures registry.roles == map[] && registry.users == map[]
      ensures files == existing
    {
      registry := new Rbac();
      files := existing;
    }

    /** Writes `content` to `path`, creating or overwriting it, if `user` may create. */
    method CreateFile(user: string, path: string, content: string := "") returns (o: Outcome<()>)
      requires Valid()
      modifies this
      ensures Valid() && unchanged(registry)
      ensures o != NotFound
      ensures o == Denied <==> !Allows(user, Create)
      ensures o == Denied ==> files == old(files)
      ensures o.Ok? ==> files == old(files)[path := content]
    {
      var granted := registry.HasPermission(user, Token(Create));
      if granted {
        files := files[path := content];
        o := Ok(());
      } else {
        o := Denied;
      }
    }

    /** Returns the content of `path` if `user` may read and the file exists. */
    method ReadFile(user: string, path: string) returns (o: Outcome<string>)
      requires Valid()
      ensures o == Denied <==> !Allows(user, Read)
      ensures o == NotFound <==> Allows(user, Read) && path !in files
      ensures o.Ok? ==> path in files && o.value == files[path]
    {
      var granted := registry.HasPermission(user, Token(Read));
      if granted {
        if path in files {
          o := Ok(files[path]);
        } else {
          o := NotFound;
        }
      } else {
        o := Denied;
      }
    }

    /** Replaces the content of an existing `path` if `user` may write. */
    method WriteFile(user: string, path: string, content: string) returns (o: Outcome<()>)
      requires Valid()
      modifies this
      ensures Valid() && unchanged(registry)
      ensures o == Denied <==> !Allows(user, Write)
      ensures o == NotFound <==> Allows(user, Write) && path !in old(files)
      ensures o.Ok? ==> path in old(files) && files == old(files)[path := content]
      ensures !o.Ok? ==> files == old(files)
    {
      var granted := registry.HasPermission(user, Token(Write));
      if granted {
        if path in files {
          files := files[path := content];
          o := Ok(());
        } else {
          o := NotFound;
        }
      } else {
        o := Denied;
      }
    }

    /** Removes an existing `path` if `user` may delete. */
    method DeleteFile(user: string, path: string) returns (o: Outcome<()>)
      requires Valid()
      modifies this
      ensures Valid() && unchanged(registry)
      ensures o == Denied <==> !Allows(user, Delete)
      ensures o == NotFound <==> Allows(user, Delete) && path !in old(files)
      ensures o.Ok? ==> path in old(files) && files == old(files) - {path}
      ensures !o.Ok? ==> files == old(files)
    {
      var granted := registry.HasPermission(user, Token(Delete));
      if granted {
        if path in files {
          files := files - {path};
          o := Ok(());
        } else {
          o := NotFound;
        }
      } else {
        o := Denied;
      }
    }
  }

  /** A file created by a user who may create and read reads back as exactly what was written. */
  method CreateThenRead(fs: RbacFileSystem, user: string, path: string, content: string)
      returns (created: Outcome<()>, read: Outcome<string>)
    requires fs.Valid()
    modifies fs
    ensures fs.Valid()
    ensures old(fs.Allows(user, Create)) && old(fs.Allows(user, Read)) ==> created.Ok? && read == Ok(content)
  {
    created := fs.CreateFile(user, path, content);
    read := fs.ReadFile(user, path);
  }

  /** Once a file is deleted, a user who may read it finds it missing. */
  method DeleteThenRead(fs: RbacFileSystem, user: string, path: string)
      returns (deleted: Outcome<()>, read: Outcome<string>)
    requires fs.Valid()
    modifies fs
    ensures fs.Valid()
    ensures old(fs.Allows(user, Delete)) && old(fs.Allows(user, Read)) ==> read == NotFound
    ensures old(fs.Allows(user, Delete)) && old(fs.Allows(user, Read)) && path in old(fs.files) ==> deleted.Ok?
  {
    deleted := fs.DeleteFile(user, path);
    read := fs.ReadFile(user, path);
  }

  /**
   A user whose role grants reading and writing but not creating: creating is
   denied (and changes nothing), reading an existing file succeeds.
   */
  method EditorScenario() returns (assignment: AssignOutcome, created: Outcome<()>, read: Outcome<string>)
    ensures assignment == Assigned
    ensures created == Denied
    ensures read == Ok("hola")
  {
    var fs := new RbacFileSystem(map["notas.txt" := "hola"]);
    fs.registry.AddRole("editor", {"leer", "escribir"});
    assignment := fs.registry.AssignRole("alice", "editor");
    RoleUnionOfOneRole(fs.registry.roles, fs.registry.users["alice"], "editor");
    created := fs.CreateFile("alice", "nuevo.txt", "x");
    read := fs.ReadFile("alice", "notas.txt");
  }
}
