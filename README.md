# RBAC file system, modelled in Dafny

A model of a small role-based access control (RBAC) layer that guards four
file operations. It has two parts:

- **The registry** (`Registry`, file `registry.dfy`). The class `Rbac` holds two maps.
  - `roles` maps a role name to its set of permission tokens. `AddRole` overwrites an entry (last write wins, no merge).
  - `users` maps a user name to the ordered list of roles assigned to that user. `AssignRole` appends a role, but only if the role is defined; otherwise nothing changes and the outcome is `RoleNotFound`.
  - `UserPermissions` computes a user's effective permissions: the union of the permissions of all the user's roles. An unknown user gets the empty set. `HasPermission` is membership in that union.
  - The value-level functions `RoleUnion` and `Effective` specify that union. The lemmas beside them prove what it means: membership, order and duplicate independence, append, concatenation, a single role, redefinition and assignment.
  - The invariant `WellFormed` says every role held by a user is a defined role. Every method keeps it, so the role lookup in the union never fails.
- **The guarded file store** (`FileSystem`, file `filesystem.dfy`). The class `RbacFileSystem` holds a registry and an abstract file map from path to content.
  - `CreateFile`, `ReadFile`, `WriteFile` and `DeleteFile` each first check a fixed token: `"crear"`, `"leer"`, `"escribir"` or `"eliminar"`.
  - Read, write and delete then check that the path exists. Create overwrites without checking.
  - Each returns an `Outcome`: `Denied`, `NotFound` or `Ok(...)`. A denied or not-found call leaves the files unchanged, and no file operation changes the registry.

## Model

| member | source | states |
|---|---|---|
| `Registry.Rbac.constructor` | RBAC.py:5-7 | A new registry has no roles and no users, and satisfies the invariant. |
| `Registry.Rbac.AddRole` | RBAC.py:9-10 | `roles[name]` becomes exactly the given permissions, replacing any old set. Other roles and all users are unchanged. The invariant is kept. |
| `Registry.Rbac.AssignRole` | RBAC.py:13-20 | Succeeds iff the role is defined. On failure nothing changes. On success the role is appended at the end of the user's list (created empty for a new user), other users are untouched and the invariant is kept. |
| `Registry.Rbac.UserPermissions` | RBAC.py:22-30 | The loop returns exactly the user's effective permissions: empty for an unknown user, and including the permissions of every role in the user's list. |
| `Registry.Rbac.HasPermission` | RBAC.py:32-34 | True iff the token is in the user's effective permissions, i.e. iff some role in the user's list grants it. False for an unknown user. |
| `Registry.RoleUnionMembership` | RBAC.py:27-30 | A token is in the union of a role list iff some role of the list grants it. |
| `Registry.RoleUnionOfSameRoles` | RBAC.py:27-30 | Two role lists with the same roles, in any order and with any repetition, give the same union. |
| `Registry.RoleUnionAppend` | RBAC.py:27-30 | Appending a defined role to a list adds exactly that role's permissions to the union. |
| `Registry.RoleUnionConcat` | RBAC.py:27-30 | The union over two concatenated role lists is the union of the two lists' unions. |
| `Registry.RoleUnionOfOneRole` | RBAC.py:27-30 | A non-empty list that holds only role `r` gives exactly the permissions of `r`. |
| `Registry.RoleUnionAfterRedefine` | RBAC.py:27-30 | After a role is redefined, a token is in a list's union iff the list holds the role and the new definition grants the token, or another role of the list grants it. So tokens dropped from the role are revoked. A list not holding the role gives the same union as before. |
| `Registry.AssignGrantsRole` | RBAC.py:14-17 | Assigning a defined role keeps the invariant and adds exactly that role's permissions to the user. Every other user's permissions are unchanged. |
| `Registry.RedefineRoleEffect` | RBAC.py:9-10 | Redefining a role keeps the invariant. A holder of the role then has exactly the role's new permissions plus those of the holder's other roles, at once, so dropped tokens are revoked. Every other user keeps the same permissions. |
| `FileSystem.RbacFileSystem.constructor` | RBAC.py:36 | A file system starts with an empty registry over the files already present. |
| `FileSystem.RbacFileSystem.CreateFile` | RBAC.py:37-43 | Denied iff the user lacks `"crear"`, and then the files are unchanged. Otherwise `files[path]` is set to the content (empty by default) whether or not the path existed. Never NotFound. |
| `FileSystem.RbacFileSystem.ReadFile` | RBAC.py:45-54 | Denied iff the user lacks `"leer"`, even for a missing path. NotFound iff the user may read and the path is absent. Otherwise returns the file's content. |
| `FileSystem.RbacFileSystem.WriteFile` | RBAC.py:56-65 | Denied iff the user lacks `"escribir"`. NotFound iff permitted and the path is absent. Otherwise only that entry is replaced. Files are unchanged unless the outcome is Ok. |
| `FileSystem.RbacFileSystem.DeleteFile` | RBAC.py:67-75 | Denied iff the user lacks `"eliminar"`. NotFound iff permitted and the path is absent. Otherwise only that key is removed. Files are unchanged unless the outcome is Ok. |
| `FileSystem.CreateThenRead` | RBAC.py:37-49 | A user who may create and read reads back exactly the content just created. |
| `FileSystem.DeleteThenRead` | RBAC.py:45-75 | After a permitted delete, a permitted read of the same path is NotFound. The delete succeeds if the path existed. |
| `FileSystem.EditorScenario` | RBAC.py:9-54 | With a role granting `"leer"` and `"escribir"` assigned to a user, that user is denied creation and can read an existing file. |

## Left out

- The interactive shell `InterfazRBAC` and its entry point (RBAC.py:77-163). They only split arguments, print help and call the core.
- Console output. Every `print` is replaced by a returned outcome: `AssignOutcome` for role assignment, `Outcome` for the file operations. Those outcomes mirror the branch that prints.
- Real file I/O. `open`, `os.path.exists` and `os.remove` are modelled as reads and updates of the map `files`. Path resolution, relative paths and OS-level I/O errors are not modelled; the code does not catch them.
- Text-mode file I/O. Reading a file in text mode (RBAC.py:48-49) turns `'\r'` and `'\r\n'` into `'\n'`, so content holding a carriage return does not read back unchanged. The model stores and returns content verbatim, so `CreateThenRead` holds in the model for every content but in the source only for content without carriage returns.
- Encoding failures on write. Writing in text mode (RBAC.py:39-40, 59-60) encodes with the locale's encoding; if that fails, the exception is raised after the file has already been truncated. The model has no encoding step and no partial write.
- Inheritance. In the source, the file-system class inherits from the registry class. Dafny classes here have no inheritance, so `RbacFileSystem` holds its registry in the field `registry`, and callers define roles through it.
- Permission lists. The source stores the caller's list of permissions for a role and returns `list(set)` in unspecified order. The model stores and returns sets, because only membership and union are ever used. Aliasing of the stored list with the caller's list is not modelled.
- A missing role in a user's list. `self.roles[rol]` would raise for it, but that case cannot occur: roles are never removed and the invariant `WellFormed` rules it out. The model therefore requires the invariant instead of modelling a lookup failure. The model has no branch where a missing role contributes nothing, because the code has none.
- The tokens are the fixed strings the code uses: `"crear"`, `"leer"`, `"escribir"` and `"eliminar"`.
- The unknown-user message printed by `obtener_permisos_usuario`. Unknown users and users with no permissions both simply get the empty set.
