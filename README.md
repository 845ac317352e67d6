# To-do list model

A Dafny model of the in-memory to-do list in `SIhombrePython.py`. It has two parts.

A task (`Tarea`) is a record with an id, a name and a completion flag.

A to-do list (`TodoList`) owns a list of tasks. It changes the list in place with these operations:
- append a new task whose id is the current length plus one;
- remove the first task with a given id;
- mark the first task with a given id as completed;
- sort the list stably by name, or stably by completion flag.

It also shows two filtered views: the completed tasks and the pending tasks.

Modules:

- `Tasks` (tasks.dfy): the task record and its one-line rendering (`__str__`). It also holds a parser that reads a rendered line back.
- `Ordering` (ordering.dfy):
  - Python's `<` on strings, a lexicographic comparison by code point;
  - the two sort keys;
  - a stable sort, written as a function of the list.
- `Views` (views.dfy): the completed view and the pending view.
- `Edits` (edits.dfy):
  - the search for the first task with an id, which is a loop;
  - reference definitions of "remove first match" and "complete first match".
- `Todo` (todo_list.dfy): the class `TodoList`.
  - Its field `tasks: seq<Task>` is reassigned by the methods `AddTask`, `RemoveTask`, `CompleteTask`, `SortByName` and `SortByState`.
  - It also holds lemmas that relate the operations to the views.
- `Sequences` (sequences.dfy): regrouping facts about concatenation that the proofs share.

Ids are not kept unique. An id is the list's length plus one, so a task added after a removal can reuse an id that is still in the list. For example, add two tasks, remove task 1 and add again: the list now holds two tasks with id 2. `Todo.IdReuseScenario` walks through this case. So every operation acts on the first task with the id, and no member assumes ids are distinct.

Sorting by completion flag puts pending tasks first, because `False < True`. The caption printed after this sort says completed tasks come first. The model follows the code. `Todo.SortByStateSplits` proves the exact result: the pending view followed by the completed view.

Python's `list.sort` is modelled by an insertion sort (`Ordering.Sort`). `Ordering.SortIsTheStableSort` proves that the result is the only sorted, stable rearrangement of the list. So the model agrees with any stable sorting algorithm, including the one Python uses.

## Model

| member | source | states |
|---|---|---|
| `Tasks.Render` | SIhombrePython.py:10-11 | The rendered line ends with " [Completada]" or " [Pendiente]" according to the flag; it ends with " [Completada]" exactly when the task is completed |
| `Tasks.IntToStringRoundTrip` | SIhombrePython.py:11 | The decimal text of an id, including a leading '-' for negative ids, reads back as the same integer |
| `Tasks.RenderRoundTrip` | SIhombrePython.py:10-11 | Rendering loses nothing: the id, the name and the status can all be read back from "<id>. <name> [<status>]", so tasks that differ in any field render differently |
| `Edits.CompleteFirst` | SIhombrePython.py:33-36 | Reference definition of completing the first task with the id; the list keeps its length |
| `Edits.FindFirst` | SIhombrePython.py:26 | The search for a task with the id finds one exactly when one exists, and the index it returns is that of the first such task |
| `Edits.RemoveFirst` | SIhombrePython.py:25-31 | Removal shrinks the list by one exactly when some task has the id, and otherwise leaves the length alone |
| `Edits.RemoveFirstAt` | SIhombrePython.py:26-28 | When the id is present, removal cuts out exactly the first task with that id; all other tasks keep their relative order |
| `Edits.RemoveFirstAbsent` | SIhombrePython.py:27-31 | When no task has the id, the list is unchanged |
| `Edits.CompleteFirstAt` | SIhombrePython.py:34-36 | When the id is present, only the first task with that id gets its flag set; every other element is untouched |
| `Edits.CompleteFirstAbsent` | SIhombrePython.py:35-39 | When no task has the id, the list is unchanged |
| `Edits.CompleteFirstFrame` | SIhombrePython.py:33-36 | Completion keeps the length, the order, every id and every name; a flag that was set stays set |
| `Edits.CompleteFirstIdempotent` | SIhombrePython.py:33-36 | Completing the same id twice gives the same list as completing it once |
| `Views.Completed` | SIhombrePython.py:50 | Reference definition of the completed view (the comprehension over the list); it is no longer than the list |
| `Views.Pending` | SIhombrePython.py:59 | Reference definition of the pending view; it is no longer than the list |
| `Views.CompletedExact` | SIhombrePython.py:50 | The completed view holds each completed task of the list as many times as the list does, and no pending task |
| `Views.PendingExact` | SIhombrePython.py:59 | The pending view holds each pending task of the list as many times as the list does, and no completed task |
| `Views.ViewMembers` | SIhombrePython.py:49-59 | A task is in the completed (pending) view exactly when it is in the list and is completed (pending) |
| `Views.CompletedOfConcat` | SIhombrePython.py:50 | The completed view keeps list order: the view of a concatenation is the concatenation of the views |
| `Views.PendingOfConcat` | SIhombrePython.py:59 | The pending view keeps list order in the same sense |
| `Views.ViewsPartition` | SIhombrePython.py:49-59 | The two views partition the list: their lengths add up to its length and their multisets add up to its multiset |
| `Ordering.LexLess` | SIhombrePython.py:68 | Reference definition of Python's `<` on `str`, by code point with a proper prefix first; it is strict: a name is never smaller than an equal name |
| `Ordering.Less` | SIhombrePython.py:68-74 | Reference definition of `key(a) < key(b)` for the name key and for the flag key (`False < True`); a smaller key always differs from the other key |
| `Ordering.SameKey` | SIhombrePython.py:68-74 | Reference definition of equal keys; two keys are equal exactly when neither is smaller than the other, which is what a sort comparing with `<` relies on |
| `Ordering.LexLessIrreflexive` | SIhombrePython.py:68 | No name sorts strictly before itself |
| `Ordering.LexLessTransitive` | SIhombrePython.py:68 | The order on names is transitive |
| `Ordering.LexLessTotal` | SIhombrePython.py:68 | Any two names are equal or one sorts strictly before the other |
| `Ordering.Sort` | SIhombrePython.py:68 | Sorting yields a permutation of the list: same length, same multiset |
| `Ordering.SortSorted` | SIhombrePython.py:68 | After sorting, no task is followed by one with a smaller key |
| `Ordering.SortStable` | SIhombrePython.py:68 | Sorting is stable: within each group of equal keys, tasks keep their original relative order |
| `Ordering.SortedStableUnique` | SIhombrePython.py:68 | Two sorted lists with the same groups of equal keys, each group in the same order, are equal |
| `Ordering.SortIsTheStableSort` | SIhombrePython.py:68 | Any sorted, stable rearrangement of the list is the model's sort, whatever stable algorithm produced it |
| `Ordering.SortedByNameNonDecreasing` | SIhombrePython.py:67-68 | In a list sorted by name, names are non-decreasing in lexicographic order |
| `Todo.TodoList.constructor` | SIhombrePython.py:16-17 | A new list is empty |
| `Todo.TodoList.AddTask` | SIhombrePython.py:19-22 | The list grows by exactly one task at the end, with id old length + 1, the given name and the flag clear; earlier tasks are unchanged and keep their positions |
| `Todo.TodoList.RemoveTask` | SIhombrePython.py:25-31 | Reports whether some task had the id; if so, the first such task is removed and the rest keep their order; if not, the list is unchanged; an id below 1 is never found, since every task in the list has a positive id |
| `Todo.TodoList.CompleteTask` | SIhombrePython.py:33-39 | Reports whether some task had the id; if so, only the first such task is marked completed; if not, the list is unchanged; an id below 1 is never found |
| `Todo.TodoList.SortByName` | SIhombrePython.py:67-68 | The new list is a permutation of the old one, sorted by name and stable |
| `Todo.TodoList.SortByState` | SIhombrePython.py:73-74 | The new list is the pending view followed by the completed view, so no completed task precedes a pending one; it is a stable permutation |
| `Todo.SortByStateSplits` | SIhombrePython.py:73-74 | Sorting by completion flag gives exactly the pending tasks in list order, then the completed tasks in list order |
| `Todo.AddedTaskIsPending` | SIhombrePython.py:19-22 | A newly added task appears at the end of the pending view; the completed view is left unchanged |

## Left out

- Console output. This covers every `print` in `TodoList` and the whole of `mostrar_tareas` (SIhombrePython.py:41-47), which only prints. The "found" and "not found" messages of removal and completion become the boolean result of `RemoveTask` and `CompleteTask`. The `mostrar_*` methods are modelled only by the filtered views they print.
- `main()` and the module-level demonstration code at SIhombrePython.py:81-124. They only drive the list, double a list of numbers, and print an ad-hoc sort of four tasks.
- `ficheroParte3.php`. It is database, HTTP and hashing glue: a PDO connection, request dispatch, URL validation through `filter_var`, and a short code taken from `md5(time())`. The other files are unrelated exercises (two of them are to-do lists in TypeScript and JavaScript); they are not part of this model.
- Object identity. A `Tarea` is a mutable object in Python; here a task is a value. `list.remove(tarea)` removes by identity. The list never holds the same object twice, because every task is created fresh by `agregar_tarea`, so removal by identity is modelled as removal at the index of the first match. Marking a task completed changes only that list element, because no other reference to the object is kept.
- Dynamic typing. Ids are modelled as integers and names as strings; Python would accept values of any type. Names are compared by code point, like Python's `str`. Python strings that hold lone surrogates have no counterpart in Dafny's `string`.
- The invariant `Valid()` (every id is positive) is not stated in the source. It holds because `AddTask` is the only operation that creates tasks, and `RemoveTask` and `CompleteTask` use it to promise that an id below 1 is never found.
