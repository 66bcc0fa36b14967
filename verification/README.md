# Task tracker backend: user and task tables with their controller actions

This project models the core of a small ASP.NET task-tracking backend. The
application database holds two tables:

- **users**: Id, Email, PasswordHash.
- **tasks**: Id, Title, IsCompleted, UserId.

Two controllers read and change these tables:

- `AuthController` registers users, logs them in, and answers the caller's
  profile.
- `TasksController` lists, creates, updates and deletes tasks.

Every action is one atomic, sequential step. The caller's identity is the
value of the `userId` claim of its bearer token, given to each action as an
`Option<string>`.

Modules, one per source unit:

- `Models`: the row types (`User`, `Task`, the `Profile` projection) and the
  LINQ queries the controllers run (`AnyAsync`, `FirstOrDefaultAsync`,
  `FindAsync`, `Where`), each proved against a quantified definition.
- `AppDb`: the `AppDbContext` class. It holds the tables as `seq` fields and
  the identity counters that key new rows. `Valid()` says keys are positive,
  fresh and distinct.
- `Int32Text`: `int.ToString()` and `int.TryParse` / `int.Parse`, used for the
  `userId` claim. It proves the round trip `Parse(Format(n)) == Parsed(n)`.
- `Jwt`: tokens as claim records, `FindFirst`, and the acceptance test the
  bearer middleware applies (Program.cs).
- `Http`: the result of an action (status and body), including the exceptions
  that escape an action (answered with 500).
- `AuthController`, `TasksController`: the actions. Actions that change the
  tables are methods that take the `AppDbContext` object as a parameter and
  modify it, as the controllers use their injected context. Actions that only
  read are functions of the current tables.

The code as written behaves as follows, and the model keeps it:

- `UpdateTask` and `DeleteTask` check no ownership, so there is no Forbidden
  outcome. Their contracts hold for every caller claim, including another
  user's id or no claim at all.
- Register stores the password as given, not a derived secret.
- A token is accepted until two hours plus the middleware's default clock skew
  of five minutes after issue, not just until two hours.
- The tasks controller's `GetProfile` reads the claim with `int.Parse`. A
  claim that is not a 32-bit integer throws there (500) instead of answering
  Unauthorized.

## Model

| member | source | states |
|---|---|---|
| `Models.FirstWithEmail` | Controllers/AuthController.cs:46 | None exactly when no row has the email; otherwise the earliest row with that email |
| `Models.FirstWithEmailIsUnique` | Controllers/AuthController.cs:46 | with distinct emails, the lookup by email finds exactly the one row that has it |
| `Models.FirstWithId` | Controllers/AuthController.cs:88-91 | None exactly when no row has the id; otherwise a row of the table with that id |
| `Models.FirstWithIdIsUnique` | Controllers/AuthController.cs:88-91 | with distinct ids, the lookup by id finds exactly the one row that has it |
| `Models.FindTask` | Controllers/TasksController.cs:52 | None exactly when no task has the key; otherwise a position holding a task with that key |
| `Models.OwnedBy` | Controllers/TasksController.cs:24-26 | a task is in the result exactly when it is in the table and its UserId is the given owner |
| `Models.OwnedByCounts` | Controllers/TasksController.cs:24-26 | the filter keeps each of the owner's rows with its multiplicity and no other row: equality as multisets |
| `Models.RemoveAt` | Controllers/TasksController.cs:72 | removing one row shortens the table by one and keeps every other row in order |
| `Models.RemoveAtKeepsOthers` | Controllers/TasksController.cs:72 | with distinct keys, after removal a task is present exactly when it was present and its key differs from the removed key; keys stay distinct |
| `Int32Text.Format` | Controllers/AuthController.cs:65 | `Id.ToString()` is non-empty, has no surrounding white space, and starts with '-' exactly for negative ids |
| `Int32Text.Digits` | Controllers/AuthController.cs:65 | the decimal digits of a natural number form a non-empty run of digits with no leading zero |
| `Int32Text.Parse` | Controllers/AuthController.cs:85 | `int.TryParse` yields only values in the 32-bit range |
| `Int32Text.ParseFormat` | Controllers/AuthController.cs:85 | every 32-bit id parses back from the text `ToString` wrote into the token |
| `Int32Text.DigitsValueOfDigits` | Controllers/AuthController.cs:85 | reading back the digits of a number gives that number |
| `Jwt.FindFirst` | Controllers/AuthController.cs:84 | `FindFirst` finds nothing exactly when no claim has the type; what it finds is a claim of that type |
| `AppDb.AppDbContext.AddUser` | Controllers/AuthController.cs:37-38 | a saved user gets the next identity key, is appended, and nothing else changes |
| `AppDb.AppDbContext.AddTask` | Controllers/TasksController.cs:43-44 | a saved task gets a key no existing task has, is appended, and nothing else changes |
| `AppDb.AppDbContext.SaveTask` | Controllers/TasksController.cs:57-60 | saving a tracked task replaces only that row, keeping its key |
| `AppDb.AppDbContext.RemoveTask` | Controllers/TasksController.cs:72-73 | removing a tracked task drops only that row |
| `AuthController.Register` | Controllers/AuthController.cs:24-41 | a taken email gives BadRequest("Usuário já existe.") and leaves the user table unchanged. A fresh email appends exactly one user, with that email, the raw password and an unused id, and answers only the success message. The task table is never touched. Distinct emails stay distinct |
| `AuthController.RegisterSameEmailTwice` | Controllers/AuthController.cs:27-40 | registering a fresh email twice: Ok, then BadRequest, with exactly one user added |
| `AuthController.GenerateJwtToken` | Controllers/AuthController.cs:57-77 | the token carries exactly two claims, the user's email and id text, the configured issuer, audience and key, and expires two hours after issue |
| `AuthController.Login` | Controllers/AuthController.cs:44-55 | every failure is the one answer Unauthorized("Credenciais inválidas."). An unknown email fails. A success means some user has both the email and the password, and the token is the one generated for that user |
| `AuthController.LoginSucceedsIff` | Controllers/AuthController.cs:46-50 | with distinct emails, login succeeds if and only if some user has both the request's email and its password |
| `AuthController.IssuedTokenLifetime` | Program.cs:13-22 | an issued token passes the bearer middleware exactly up to two hours plus the clock skew after issue |
| `AuthController.ForeignKeyRejected` | Program.cs:20-21 | a token signed under another key is refused |
| `AuthController.GetProfile` | Controllers/AuthController.cs:81-97 | Unauthorized exactly when the claim is missing or not a 32-bit integer. NotFound when no user has the id. Otherwise Ok with that user's id and email only |
| `AuthController.SignedInUserSeesOwnProfile` | Controllers/AuthController.cs:53-96 | with distinct emails and ids, a user who logs in and presents the token in time gets their own profile back |
| `TasksController.ClaimedUserId` | Controllers/TasksController.cs:22 | `int.Parse(FindFirst("userId")!.Value)`: NullReference exactly when the claim is missing; a parsed id is in the 32-bit range; a present claim fails only when it does not parse, with OverflowException exactly for an out-of-range number |
| `TasksController.ClaimOfIssuedId` | Controllers/TasksController.cs:22 | the claim a token carries for a 32-bit id (its `ToString` text) reads back as that id, so the actions act for the signed-in user |
| `TasksController.GetTasks` | Controllers/TasksController.cs:19-29 | if the claim cannot be read, the exception escapes. Otherwise Ok with exactly the tasks whose owner is the caller |
| `TasksController.GetTasksIsOwnerScoped` | Controllers/TasksController.cs:22-28 | for a caller with id n, each of n's tasks is listed as often as it is stored and no other task is listed |
| `TasksController.CreateTask` | Controllers/TasksController.cs:32-47 | with a readable claim, appends exactly one task: the request title, not completed, owned by the caller, under an unused key. That task is returned and existing rows are unchanged. Otherwise the exception escapes and nothing changes |
| `TasksController.CreatedTaskListedOnce` | Controllers/TasksController.cs:34-46 | a newly created task is listed exactly once for its owner and never for another user |
| `TasksController.UpdateTask` | Controllers/TasksController.cs:50-62 | an absent key gives NotFound and no change. A present key gets the request's title and completion flag and keeps its key and owner; all other rows are unchanged. This holds whoever the caller is |
| `TasksController.DeleteTask` | Controllers/TasksController.cs:65-76 | an absent key gives NotFound and no change. A present key is removed and every other task is kept, whoever the caller is |
| `TasksController.GetProfile` | Controllers/TasksController.cs:80-99 | the answer is Ok, Unauthorized, NotFound or an escaping exception. Unauthorized("Token inválido.") exactly when the claim is missing. An escaping exception exactly when a present claim does not parse (never NullReference). NotFound exactly when the claim parses and no user has that id. Otherwise Ok with that user's id and email |

## Left out

- JWT compact encoding and HMAC-SHA256 signing: a token is its claims, issuer, audience, expiry and the key it was signed with. A signature is valid exactly when that key is the configured one.
- The bearer middleware is modelled only as `Jwt.Authenticate`: a missing or malformed token is `None`. The middleware's renaming of inbound claim types (`email` to the long claim URI) and the registered `iss`/`aud`/`exp` claims in the principal are not modelled. No action reads them.
- The five-minute clock skew used by `Jwt.Authenticate` is the bearer library's default; Program.cs does not set it.
- `DateTime.Now` is an integer count of seconds passed in as a parameter. The local-to-UTC conversion is not modelled.
- Program.cs service registration, the SQL Server connection and the CORS policy are configuration.
- Async execution and concurrent requests are not modelled. Email uniqueness is shown only for sequential calls to Register.
- Database identity keys are counters starting at 1 with unbounded integers. The 32-bit width of the key columns is not modelled. Parsing the claim still checks the 32-bit range.
- The foreign key from Task.UserId to User.Id that the database schema may enforce is not modelled: the AppDbContext definition and the migrations are not part of this model. CreateTask accepts any parsable caller id.
- `Jwt.FindFirst` compares claim types exactly; the identity library may compare them ignoring case. Tokens this application signs carry only the types "email" and "userId", so the difference cannot arise for them.
- Email comparison is exact string equality; database collation is not modelled.
- The unordered `FirstOrDefaultAsync` queries take the earliest row in insertion order. Under distinct emails and ids, which the model maintains, there is only one candidate row anyway.
- Int32Text.Parse: the current culture's sign symbols are fixed to '-' and '+'. Trailing NUL characters, which .NET also accepts, are not modelled.
- `Console.WriteLine` logging, the `Ping` endpoint, JSON shaping of bodies and the EF navigation property `Task.User` are not modelled.
