# Detective Quest: the mansion walk, in Dafny

This project models `mansion.c`, a console game where the player explores a
mansion laid out as a binary tree of named rooms. The player starts in the
hall (the root). At each room they choose `e` (left) or `d` (right) to go
down, or `s` to quit. The walk ends by itself in a room with no way out.
At the end the program lists the rooms visited, in order. Then it frees
the tree.

Modules, one per part of the program:

- `Rooms` (rooms.dfy): the `Sala` struct as `datatype Tree = Nil | Node(name, left, right)`.
  `Nil` stands for a NULL pointer. A room is identified by its walk from the
  root, a `seq<Dir>`. `CreateRoom` is `criarSala`. `Attach` is one field
  assignment `x->esquerda = child` or `x->direita = child`, where `x` is the
  room reached by a walk. `Height` counts the rooms on the longest
  root-to-leaf walk.
- `Exploration` (exploration.dfy): `explorarSalas`. The player's input is a
  finite sequence of `Token`s. Each token is a character that
  `scanf(" %c")` returned, or `ReadFailed`. `Walk` and `Run` are the
  reference definition of the loop. The method `Explore` runs the loop the
  way the C code does. It has a cursor `current` and a 100-slot array
  `visited` that it writes at `count` before incrementing `count`. It is
  proved to produce exactly `Run`'s session.
- `Teardown` (teardown.dfy): `liberarSala`. `Release(t)` lists the rooms in
  the order they are freed.
- `MansionMap` (mansion_map.dfy): the nine-room mansion that `main` builds,
  and the example sessions over it.

`Explore` needs the session to log at most 100 rooms. The C code writes
`visitadas[cont++]` without a bounds check, so a walk of more than 100
rooms would write past the array. `LogWithinHeight` shows that the log
never holds more entries than the tree's height, so every write is in
bounds whenever the tree is at most 100 rooms high. `Play` uses this for
the four-room-high mansion of `main`.

The example mansion in `main` has nine rooms: Hall de Entrada, Sala de
Estar, Biblioteca, Cozinha, Sala de Jantar, Escritório, Observatório,
Despensa and Cúpula. The prompt offers "left" at
every room, even one with no left child, but offers "right" only when a
right child exists (mansion.c:73-74). `Prompt` keeps that asymmetry as
written.

## Model

| member | source | states |
|---|---|---|
| `Rooms.IsLeaf` | mansion.c:67 | a room has neither child exactly when it is a one-room tree |
| `Rooms.CreateRoom` | mansion.c:19-36 | the new room carries the given name, has no left and no right child, and is a one-room tree |
| `Rooms.Attach` | mansion.c:142-158 | assigning a child pointer of a room reached by a walk keeps the root a room with the same name |
| `Rooms.AttachSpec` | mansion.c:145-158 | after the assignment, the child sits at `p + [d]`, every room on the walk `p` keeps its name, and every other part of the tree is unchanged |
| `Rooms.DepthBound` | mansion.c:51-52 | a walk that reaches a room meets at most `Height(t)` rooms |
| `Exploration.Classify` | mansion.c:79-108 | a failed read selects nothing; `s` or `S`, and only those, quit; `e` or `E`, and only those, go left; `d` or `D`, and only those, go right; every other character is invalid |
| `Exploration.Prompt` | mansion.c:73-75 | the menu always offers left and quit, offers right exactly when the room has a right child, lists left first and quit last, and offers nothing twice |
| `Exploration.Walk` | mansion.c:65-109 | the loop's final cursor is a room, the log only grows, at most the input is read, and the loop never reports an empty map |
| `Exploration.Run` | mansion.c:44-61 | a session reports an empty map exactly when there is no root, and then logs nothing; otherwise the log starts with the root's name |
| `Exploration.Explore` | mansion.c:44-109 | the cursor-and-array loop, with the 100-slot log, produces exactly the log and the stop reason of `Run` on the same input; every log write is in bounds when that session logs at most 100 rooms |
| `Exploration.NoEffectTokenIsSkipped` | mansion.c:79-108 | a failed read, an unknown character, or a direction with no child leaves the cursor and the log unchanged, and the loop goes on with the next token |
| `Exploration.WalkLogIsPath` | mansion.c:91-101 | when the log starts as the names along the cursor's walk, it ends as the names along the final cursor's walk |
| `Exploration.RunLogIsRootPath` | mansion.c:61-101 | the session log is a real walk from the root: entry 0 is the root's name, entry `i` names the room `i` steps down, and each step goes to the left or right child of the room before it |
| `Exploration.LogWithinHeight` | mansion.c:51-101 | the log never has more entries than the tree's longest root-to-leaf walk has rooms |
| `Exploration.WalkReadsPrefix` | mansion.c:79-108 | the loop reads a prefix of the input and leaves the rest unread |
| `Exploration.WalkStopsOnLeaf` | mansion.c:65-70 | the loop stops on a leaf, and only on a leaf, without reading a token; it runs out of input only away from a leaf, after every token is read |
| `Exploration.WalkStopsOnQuit` | mansion.c:87-89 | a quit happens on the last token read, which is `s` or `S`, and no earlier token read was `s` or `S` |
| `Exploration.ClassifyIgnoresCase` | mansion.c:87-98 | a token and its lower-case form select the same option |
| `Exploration.WalkIgnoresCase` | mansion.c:87-98 | lower-casing every input token changes neither the walk, the log nor the stop reason |
| `Exploration.RunIgnoresCase` | mansion.c:87-98 | a whole session is the same on an input and on its lower-cased form |
| `Teardown.Release` | mansion.c:124-130 | freeing an absent tree frees nothing, and freeing a room frees the room itself last |
| `Teardown.ReleaseCount` | mansion.c:124-130 | the number of rooms freed equals the number of rooms in the tree |
| `Teardown.ReleaseComplete` | mansion.c:124-130 | a walk is freed exactly when it leads to a room of the tree |
| `Teardown.ReleaseOnceChildrenFirst` | mansion.c:124-130 | no room is freed twice, and no room is freed before any room below it (post-order) |
| `MansionMap.BuildMansion` | mansion.c:140-158 | the nine assignments of `main` build the example mansion, which has 9 rooms and a height of 4 rooms (depth 3) |
| `MansionMap.Play` | mansion.c:140-164 | `main` builds the mansion, explores it and frees it: the session is `Run` on the mansion, it logs at most four rooms, and the teardown frees all nine rooms in `Release` order |
| `MansionMap.LeftLeftQuit` | mansion.c:142-161 | on the example mansion, inputs `e, e, s` log Hall de Entrada, Sala de Estar, Cozinha and stop by quitting |
| `MansionMap.RightToTheDome` | mansion.c:142-161 | on the example mansion, inputs `d, d, d` log four rooms ending at the leaf Cúpula and stop there |
| `MansionMap.NoRightFromKitchen` | mansion.c:149-157 | at Cozinha, `d` neither moves the cursor nor adds to the log |
| `MansionMap.MansionTeardown` | mansion.c:157-164 | tearing down the example mansion frees nine rooms, Despensa first and the hall last |

## Left out

- Console output is not modelled: the banners, the narration, the prompt text and the messages for "no path" and invalid input (mansion.c:57-58, 62, 68, 73-76, 80, 88, 94-107). The menu's contents are modelled by `Prompt`.
- The final summary (mansion.c:112-116) prints `visited[0..count)`, numbered from 1, between two delimiter lines. The model returns the log itself. The printing is not modelled.
- The `scanf`/`getchar` mechanics are abstracted: white-space skipping, and draining the rest of the line after a failed read (mansion.c:79-83). Each `ReadFailed` token stands for one failed read.
- At end of stream, the C loop keeps re-prompting, because every later read fails too. The model's input is finite. When it runs out while the player is still being prompted, the session stops with `InputExhausted`, a reason the C program does not have.
- Allocation failure in `criarSala` (mansion.c:20-31), with its message and `exit(EXIT_FAILURE)`, is not modelled. `CreateRoom` is total.
- The byte-level copy of the name with `strlen`, `malloc` and `strncpy` is not modelled. A room's name is the string it was created with.
- `Teardown.Release` models the order and the number of `free` calls, not memory itself. Freeing `nome` and the record are one step per room.
- The exit status and the closing message of `main` (mansion.c:166-167) are not modelled.
- Pointers are not modelled as shared mutable memory. The tree is a value, so a room cannot have two parents or be its own ancestor. `main`'s field assignments become `Attach` calls that return the updated tree.
- `Exploration.Explore`: requires the session to log at most 100 rooms. The C code has no guard, and a walk of more than 100 rooms would write past `visitadas`. The model does not capture that overflow.
