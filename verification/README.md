# AVL tree and TechSystem record manager, in Dafny

This project models two parts of a C++ course-management exercise and proves properties of both.

**The AVL tree of `AVLTree.h`.** It is an ordered key-to-value map kept height-balanced. Keys are specialised to `int`; the value type stays generic. The model has two layers:

- `avl_spec.dfy` (module `AVLSpec`) restates each static helper of the C++ class as a function on a `Tree` value. That covers `updateHeight`, both rotations, `rebalance`, `insertNode`, `minNode` and `removeNode`. The AVL properties are proved about these functions by induction: binary-search-tree order, correct cached heights, balance factors in {-1, 0, 1}, and the key-to-value map after insert and remove.
- `avl_tree.dfy` (module `AVL`) is the heap version. Nodes are objects whose `key`, `value`, `height`, `left` and `right` fields are rewired in place, and each helper returns the new subtree root, as in the C++. A ghost `Shape` names the node objects of a subtree. `Wf` says the child pointers really form that shape, and `Abs` reads the `Tree` value the nodes stand for. Every method is proved to move `Abs` exactly as the matching `AVLSpec` function does. `minNode` and `findNode` keep their `while` loops.

**The `TechSystem` record manager of `TechSystem26a1.h` / `TechSystem26a1.cpp`.** Students and courses are records stored by id. Each course has its own table of enrolled students, and that table holds the same `StudentData` objects as the `students` table. There is also a global bonus. Points are `baseCredits + globalBonus`, and a new student starts at `-globalBonus`. This part also has two layers:

- `tech_spec.dfy` (module `TechSpec`) gives each operation as a function from the old `State` to the new state and its status. It defines the system invariant `Consistent`: ids positive, course points positive, every enrolled id a registered student, and both counters equal to the size of the enrollment relation. The module proves that every operation keeps the invariant, and proves the promises of the operations: errors leave the state unchanged, round trips, what points a student reads, and who can be removed.
- `tech_system.dfy` (module `Tech`) is the heap version. `StudentData` and `CourseData` are classes whose counters and credits are updated in place through shared references, and `TechSystem` holds the tables. A ghost `model` is tied field by field to the records. Each method is proved to move `model` exactly as the `TechSpec` function does, while keeping the records shared and the invariant intact.

`wrappers.dfy` holds the `Option` type that `AVLTree.Find` returns.

## Model

| member | source | states |
|---|---|---|
| AVLSpec.Max | AVLTree.h:33-35 | the larger of two integers (definition, no contract; used by `Refreshed` and `HeightsOk`) |
| AVLSpec.HeightOf | AVLTree.h:24-26 | the cached height of a subtree, 0 for an absent one (definition; `AVLSpec.HeightNonNegative` and `AVLSpec.CachedHeightIsDepth` state its properties) |
| AVLSpec.BalanceOf | AVLTree.h:28-31 | left cached height minus right cached height, 0 for an absent subtree (definition; `AVL.AVLTree.GetBalance` is proved equal to it) |
| AVLSpec.Refreshed | AVLTree.h:36-39 | the node with its cached height recomputed as 1 + the larger child height (definition; `AVL.AVLTree.UpdateHeight` is proved equal to it) |
| AVLSpec.RotatedRight | AVLTree.h:41-51 | with correct heights in the three moved subtrees, the rotated tree has correct cached heights (y is refreshed before x) |
| AVLSpec.RotatedLeft | AVLTree.h:53-63 | with correct heights in the three moved subtrees, the rotated tree has correct cached heights (x is refreshed before y) |
| AVLSpec.Rebalanced | AVLTree.h:65-86 | given children with correct heights, the rebalanced node has correct cached heights everywhere |
| AVLSpec.Inserted | AVLTree.h:88-104 | inserting into a tree with correct heights yields a tree with correct heights |
| AVLSpec.Leftmost | AVLTree.h:106-112 | following left children ends at a node that has no left child |
| AVLSpec.Removed | AVLTree.h:114-146 | removing from a tree with correct heights yields a tree with correct heights |
| AVLSpec.HeightNonNegative | AVLTree.h:24-26 | a cached height is never negative, and it is 0 exactly for an absent subtree |
| AVLSpec.CachedHeightIsDepth | AVLTree.h:36-39 | where every node's height is 1 + max of its children's, the cached height equals the real depth |
| AVLSpec.HeightLogarithmic | AVLTree.h:65-86 | a tree with correct heights and every balance factor in {-1, 0, 1} that rebalancing keeps has at least 2^(h/2) - 1 nodes for height h, so its height is logarithmic in its size |
| AVLSpec.KeysAreContentsKeys | AVLTree.h:12-21 | the keys of the nodes are exactly the keys of the stored map |
| AVLSpec.ContentsOfNode | AVLTree.h:148-159 | in an ordered tree a key smaller (larger) than the root's is found in the stored map iff it is in the left (right) subtree's map, with the same value; the root's key maps to the root's value |
| AVLSpec.RotatedRightPreserves | AVLTree.h:41-51 | a right rotation keeps the in-order key sequence and the key set, and on an ordered tree keeps the order and the key-to-value map |
| AVLSpec.RotatedRightOrdered | AVLTree.h:41-51 | a right rotation of an ordered tree is ordered |
| AVLSpec.RotatedRightContents | AVLTree.h:41-51 | a right rotation of an ordered tree stores the same key-to-value map |
| AVLSpec.RotatedLeftPreserves | AVLTree.h:53-63 | a left rotation keeps the in-order key sequence and the key set, and on an ordered tree keeps the order and the key-to-value map |
| AVLSpec.RotatedLeftOrdered | AVLTree.h:53-63 | a left rotation of an ordered tree is ordered |
| AVLSpec.RotatedLeftContents | AVLTree.h:53-63 | a left rotation of an ordered tree stores the same key-to-value map |
| AVLSpec.RebalancedPreserves | AVLTree.h:65-86 | rebalancing keeps the key set and the in-order sequence, and on an ordered tree keeps the order and the key-to-value map |
| AVLSpec.RebalancedCases | AVLTree.h:65-86 | rebalance picks exactly one of: no rotation when the balance is within 1, LL (right rotation), LR (left rotation of the left child, then right rotation), RR (left rotation) or RL (right rotation of the right child, then left rotation); the child it rotates exists |
| AVLSpec.LeftHeavyFixed | AVLTree.h:70-75 | on a node whose left subtree is 2 higher than its right one, the LL/LR fix yields a balanced tree whose height is the left height or one more |
| AVLSpec.RightHeavyFixed | AVLTree.h:78-83 | on a node whose right subtree is 2 higher than its left one, the RR/RL fix yields a balanced tree whose height is the right height or one more |
| AVLSpec.RebalancedBalanced | AVLTree.h:65-86 | with AVL children whose heights differ by at most 2, rebalance returns a balanced tree whose height is the larger child height plus 0 or 1, and plus exactly 1 when no rotation was needed |
| AVLSpec.RebalancedIdentity | AVLTree.h:65-86 | rebalancing a valid AVL tree changes nothing |
| AVLSpec.InsertedKeys | AVLTree.h:88-104 | the keys after an insert are the old keys plus the inserted one |
| AVLSpec.InsertedCorrect | AVLTree.h:88-104 | insert keeps a valid AVL tree valid, its map becomes the old map plus key to value unless the key was present (no overwrite), and the height grows by at most 1 |
| AVLSpec.InsertedOrdered | AVLTree.h:88-104 | insert keeps binary-search-tree order |
| AVLSpec.InsertedBalanced | AVLTree.h:88-104 | insert keeps every balance factor in {-1, 0, 1} and grows the height by at most 1 |
| AVLSpec.InsertedContents | AVLTree.h:88-104 | on an ordered tree, the map after insert is the old map with key to value added only if the key was absent |
| AVLSpec.ContentsStep | AVLTree.h:94-97 | when one subtree's map gains key to value as an insert into it, the whole node's map gains it the same way |
| AVLSpec.InsertedPresent | AVLTree.h:98-100 | inserting a key that is already present leaves the tree unchanged |
| AVLSpec.LeftmostIsMinimum | AVLTree.h:106-112 | the leftmost node of an ordered non-empty tree holds the smallest key, and its value is that key's value |
| AVLSpec.RemovedKeys | AVLTree.h:114-146 | remove takes exactly the given key out of the key set and keeps the order |
| AVLSpec.SplicedOrdered | AVLTree.h:135-143 | copying the in-order successor into a two-child node and removing it from the right subtree gives an ordered tree that lacks only the node's old key |
| AVLSpec.RemovedCorrect | AVLTree.h:114-146 | remove keeps a valid AVL tree valid, its map becomes the old map without the key, and the height shrinks by at most 1 |
| AVLSpec.RemovedContents | AVLTree.h:114-146 | on an ordered tree, the map after remove is the old map without the key |
| AVLSpec.RemovedBalanced | AVLTree.h:114-146 | remove keeps every balance factor in {-1, 0, 1} and shrinks the height by at most 1 |
| AVLSpec.SplicedContents | AVLTree.h:135-143 | the successor splice stores the old map without the removed node's key |
| AVLSpec.RemovedContentsStep | AVLTree.h:120-125 | when one subtree's map loses a key as a remove from it, the whole node's map loses it the same way |
| AVLSpec.RemovedAbsent | AVLTree.h:114-118 | removing an absent key from a valid AVL tree leaves it unchanged |
| AVL.Abs | AVLTree.h:12-22 | a subtree pointer is non-null exactly when the tree value it stands for is a node |
| AVL.AVLNode.constructor | AVLTree.h:19-20 | a new node is a leaf of height 1 holding the given key and value |
| AVL.AVLTree.Height | AVLTree.h:24-26 | the height read from a node pointer is the cached height of the tree it roots, 0 for null |
| AVL.AVLTree.GetBalance | AVLTree.h:28-31 | the balance read from a node pointer is the left minus the right cached height, 0 for null |
| AVL.AVLTree.UpdateHeight | AVLTree.h:36-39 | the node's height becomes 1 + the larger child height; nothing else changes |
| AVL.AVLTree.RotateRight | AVLTree.h:41-51 | rewires the same nodes into the right-rotated tree and returns its root |
| AVL.AVLTree.RotateLeft | AVLTree.h:53-63 | rewires the same nodes into the left-rotated tree and returns its root |
| AVL.AVLTree.RotateLeftChild | AVLTree.h:71-72 | replaces the node's left subtree by its left rotation |
| AVL.AVLTree.RotateRightChild | AVLTree.h:79-80 | replaces the node's right subtree by its right rotation |
| AVL.AVLTree.Rebalance | AVLTree.h:65-86 | rewires the subtree into its rebalanced form and returns the new root |
| AVL.AVLTree.InsertNode | AVLTree.h:88-104 | the subtree becomes the inserted tree, only fresh nodes are added, and `inserted` is true iff the key was absent |
| AVL.AVLTree.InsertLeft | AVLTree.h:94-95 | the node's left subtree becomes the left subtree with the key inserted; reports whether it was absent there |
| AVL.AVLTree.InsertRight | AVLTree.h:96-97 | the node's right subtree becomes the right subtree with the key inserted; reports whether it was absent there |
| AVL.AVLTree.MinNode | AVLTree.h:106-112 | returns null for an empty subtree, and otherwise the node holding the leftmost key and its value |
| AVL.AVLTree.RemoveNode | AVLTree.h:114-146 | the subtree becomes the removed tree, using only its own nodes, and `removed` is true iff the key was present |
| AVL.AVLTree.RemoveLeft | AVLTree.h:120-122 | the node's left subtree becomes the left subtree without the key; reports whether it was there |
| AVL.AVLTree.RemoveRight | AVLTree.h:123-125 | the node's right subtree becomes the right subtree without the key; reports whether it was there |
| AVL.AVLTree.TakeSuccessor | AVLTree.h:135-143 | copies the right subtree's leftmost key and value into the node and removes that key from the right subtree |
| AVL.AVLTree.FindNode | AVLTree.h:148-159 | returns null iff the key is absent, and otherwise the node holding the key and its stored value; changes nothing |
| AVL.AVLTree.constructor | AVLTree.h:169 | a new tree is valid and stores the empty map |
| AVL.AVLTree.Insert | AVLTree.h:179-183 | the tree stays a valid AVL tree, its map gains key to value unless the key was present, and the result is true iff the key was absent |
| AVL.AVLTree.Remove | AVLTree.h:185-189 | the tree stays a valid AVL tree, its map loses the key, and the result is true iff the key was present |
| AVL.AVLTree.Find | AVLTree.h:191-194 | returns the stored value when the key is present and nothing otherwise; the tree stays valid and its stored map is unchanged |
| AVL.AVLTree.IsEmpty | AVLTree.h:196-198 | true exactly when the tree stores the empty map |
| TechSpec.Init | TechSystem26a1.cpp:6-9 | the state of a new system: no students, no courses, bonus 0 (definition; `TechSpec.InitConsistent` states its properties) |
| TechSpec.Consistent | TechSystem26a1.cpp:140-141 | the invariant the counter updates keep: ids and points positive, enrolled ids registered, `numStudentsInCourse` the size of the course's table and `numRegisteredCourses` the number of courses holding the student (definition; the `*Consistent` lemmas prove every operation keeps it) |
| TechSpec.Points | TechSystem26a1.cpp:207 | a registered student's points: base credits plus the global bonus (definition) |
| TechSpec.WithStudent | TechSystem26a1.cpp:27-28 | the state after a successful addStudent: a record with base credits minus the current bonus and no courses (definition; `TechSpec.NewStudentHasNoPoints` states its effect) |
| TechSpec.WithoutStudent | TechSystem26a1.cpp:56 | the state after a successful removeStudent: the student's record dropped (definition; `TechSpec.AddThenRemoveStudent` relates it to `WithStudent`) |
| TechSpec.WithCourse | TechSystem26a1.cpp:75-76 | the state after a successful addCourse: a course with the given points and no students (definition) |
| TechSpec.WithoutCourse | TechSystem26a1.cpp:105 | the state after a successful removeCourse: the course's record dropped (definition; `TechSpec.AddThenRemoveCourse` relates it to `WithCourse`) |
| TechSpec.Enrolled | TechSystem26a1.cpp:135-141 | the state after a successful enrollStudent: the student in the course's table and both counters incremented (definition; `TechSpec.EnrollKeepsPoints` and `TechSpec.EnrolledConsistent` state its effect) |
| TechSpec.Completed | TechSystem26a1.cpp:174-181 | the state after a successful completeCourse: the student out of the course's table, both counters decremented, the course's points added to the base credits (definition; `TechSpec.CompleteCourseCredits` and `TechSpec.CompletedConsistent` state its effect) |
| TechSpec.AddStudent | TechSystem26a1.cpp:16-38 | succeeds iff the id is positive and new; INVALID_INPUT iff the id is not positive; FAILURE iff the id is positive and already registered; any failure leaves the state unchanged |
| TechSpec.RemoveStudent | TechSystem26a1.cpp:40-62 | succeeds iff the id is positive, known and has no registered courses; INVALID_INPUT iff the id is not positive; FAILURE iff the id is positive and unknown or has registered courses; any failure leaves the state unchanged |
| TechSpec.AddCourse | TechSystem26a1.cpp:64-87 | succeeds iff id and points are positive and the id is new; INVALID_INPUT iff one of them is not positive; FAILURE iff both are positive and the id exists; any failure leaves the state unchanged |
| TechSpec.RemoveCourse | TechSystem26a1.cpp:89-111 | succeeds iff the id is positive, known and the course has no students; INVALID_INPUT iff the id is not positive; FAILURE iff the id is positive and unknown or the course has students; any failure leaves the state unchanged |
| TechSpec.EnrollStudent | TechSystem26a1.cpp:113-147 | succeeds iff both ids are positive, both records exist and the student is not yet in the course; INVALID_INPUT iff an id is not positive; FAILURE iff both are positive and a record is missing or the student is already enrolled; any failure leaves the state unchanged |
| TechSpec.CompleteCourse | TechSystem26a1.cpp:149-183 | succeeds iff both ids are positive, the course exists and the student is enrolled in it; INVALID_INPUT iff an id is not positive; FAILURE iff both are positive and the course is missing or the student is not enrolled; any failure leaves the state unchanged |
| TechSpec.AwardAcademicPoints | TechSystem26a1.cpp:185-193 | succeeds iff the points are positive; otherwise INVALID_INPUT with the state unchanged |
| TechSpec.GetStudentPoints | TechSystem26a1.cpp:195-211 | gives an answer iff the id is positive and registered; otherwise INVALID_INPUT when the id is not positive and FAILURE when it is positive but unknown |
| TechSpec.InitConsistent | TechSystem26a1.cpp:6-9 | a new system satisfies the invariant and knows no student |
| TechSpec.UnregisteredNotEnrolled | TechSystem26a1.cpp:52-54 | under the invariant, a student's course counter is 0 iff no course has the student enrolled |
| TechSpec.AddStudentConsistent | TechSystem26a1.cpp:16-38 | addStudent keeps the invariant |
| TechSpec.RemoveStudentConsistent | TechSystem26a1.cpp:40-62 | removeStudent keeps the invariant; in particular no course is left with a removed student |
| TechSpec.AddCourseConsistent | TechSystem26a1.cpp:64-87 | addCourse keeps the invariant |
| TechSpec.RemoveCourseConsistent | TechSystem26a1.cpp:89-111 | removeCourse keeps the invariant; in particular no student counts a removed course |
| TechSpec.EnrollStudentConsistent | TechSystem26a1.cpp:113-147 | enrollStudent keeps the invariant |
| TechSpec.EnrolledConsistent | TechSystem26a1.cpp:135-141 | the updates of a successful enrollment keep both counters equal to the enrollment relation |
| TechSpec.EnrolledCourses | TechSystem26a1.cpp:135-141 | after an enrollment, the enrolled student is in exactly one more course, and every other student is in the same courses |
| TechSpec.CompleteCourseConsistent | TechSystem26a1.cpp:149-183 | completeCourse keeps the invariant |
| TechSpec.CompletedConsistent | TechSystem26a1.cpp:174-181 | the updates of a successful completion keep both counters equal to the enrollment relation |
| TechSpec.CompletedCourses | TechSystem26a1.cpp:174-181 | after a completion, the student is in that course no more, and every other student is in the same courses |
| TechSpec.AwardAcademicPointsConsistent | TechSystem26a1.cpp:185-193 | awardAcademicPoints keeps the invariant |
| TechSpec.NewStudentHasNoPoints | TechSystem26a1.cpp:27 | a newly added student reads 0 points, and every other student's points are unchanged |
| TechSpec.AwardReachesEveryone | TechSystem26a1.cpp:185-193 | an award raises every registered student's reported points by exactly the award and changes no student or course record |
| TechSpec.AwardBeforeOrAfterJoining | TechSystem26a1.cpp:27 | a student added before an award reads the award; a student added after it reads 0, so an earlier bonus is never credited |
| TechSpec.AddThenRemoveStudent | TechSystem26a1.cpp:16-62 | removing a student right after adding it succeeds and restores the previous state |
| TechSpec.AddThenRemoveCourse | TechSystem26a1.cpp:64-111 | removing a course right after adding it succeeds and restores the previous state |
| TechSpec.EnrolledStudentStays | TechSystem26a1.cpp:52-54 | a student enrolled in any course cannot be removed: removeStudent fails and changes nothing |
| TechSpec.OccupiedCourseStays | TechSystem26a1.cpp:101-103 | a course with any enrolled student cannot be removed: removeCourse fails and changes nothing |
| TechSpec.CompleteCourseCredits | TechSystem26a1.cpp:174-181 | completing adds the course's points to the student's reported points, drops the student's course count by 1, takes the student out of the course, and leaves every other student's points alone |
| TechSpec.EnrollKeepsPoints | TechSystem26a1.cpp:135-141 | a successful enrollment adds the student to the course, increments both counters by exactly 1, and changes nobody's points |
| TechSpec.EnrollThenComplete | TechSystem26a1.cpp:113-183 | enrolling and then completing the same course succeeds, and the net change is the course's points added to the student's base credits |
| TechSpec.PointsNeverDecrease | TechSystem26a1.cpp:16-193 | under the invariant, no operation lowers the reported points of a student it keeps, and only removeStudent removes a student |
| Tech.StudentData.constructor | TechSystem26a1.h:27-28 | a new student record has the given id and base credits and no registered courses |
| Tech.CourseData.constructor | TechSystem26a1.h:37-38 | a new course record has the given id and points, no students counted and an empty student table |
| Tech.TechSystem.constructor | TechSystem26a1.cpp:6-9 | a new system is valid, with no students, no courses and no bonus |
| Tech.TechSystem.AddStudent | TechSystem26a1.cpp:16-38 | returns the status and makes the state change of `TechSpec.AddStudent`; stays valid, and only fresh records are added |
| Tech.TechSystem.InsertStudent | TechSystem26a1.cpp:27-28 | stores a fresh record for the id with base credits equal to minus the current bonus |
| Tech.TechSystem.RemoveStudent | TechSystem26a1.cpp:40-62 | returns the status and makes the state change of `TechSpec.RemoveStudent`; stays valid |
| Tech.TechSystem.DeleteStudent | TechSystem26a1.cpp:56 | drops the record of a student no course holds, keeping every course's table shared with `students` |
| Tech.TechSystem.AddCourse | TechSystem26a1.cpp:64-87 | returns the status and makes the state change of `TechSpec.AddCourse`; stays valid, and only fresh records are added |
| Tech.TechSystem.InsertCourse | TechSystem26a1.cpp:75-76 | stores a fresh course record with the given points and no students |
| Tech.TechSystem.RemoveCourse | TechSystem26a1.cpp:89-111 | returns the status and makes the state change of `TechSpec.RemoveCourse`; stays valid |
| Tech.TechSystem.DeleteCourse | TechSystem26a1.cpp:105 | drops a course record |
| Tech.TechSystem.EnrollStudent | TechSystem26a1.cpp:113-147 | returns the status and makes the state change of `TechSpec.EnrollStudent`; stays valid |
| Tech.TechSystem.Enroll | TechSystem26a1.cpp:135-141 | puts the shared student record into the course's table and increments both counters, which every table sees |
| Tech.TechSystem.CompleteCourse | TechSystem26a1.cpp:149-183 | returns the status and makes the state change of `TechSpec.CompleteCourse`; stays valid |
| Tech.TechSystem.Complete | TechSystem26a1.cpp:174-181 | takes the student out of the course's table, decrements both counters and credits the student with the course's points, through the shared record |
| Tech.TechSystem.AwardAcademicPoints | TechSystem26a1.cpp:185-193 | returns the status and makes the state change of `TechSpec.AwardAcademicPoints`; touches no record |
| Tech.TechSystem.GetStudentPoints | TechSystem26a1.cpp:195-211 | answers exactly what `TechSpec.GetStudentPoints` gives for the current state: base credits plus bonus, or the error |

## Left out

- Memory release: `destroyTree`, the destructor (AVLTree.h:161-174) and the `delete` of a removed node (AVLTree.h:132) are not modelled. Dafny collects unreachable objects, so the model only unlinks the node.
- The copy constructor and copy assignment that AVLTree.h:176-177 deletes are not modelled; Dafny objects are references and are never copied.
- Allocation failure is not modelled: the `std::bad_alloc` / `ALLOCATION_ERROR` paths at TechSystem26a1.cpp:33-35, 81-83 and 143-145. A failed `new` inside the tree's insert cannot be expressed either. `ALLOCATION_ERROR` exists in `StatusType` but no operation returns it.
- The failure branches after an insert or remove whose outcome the code checked first are not modelled. These are TechSystem26a1.cpp:30-32, 57-59, 78-80, 106-108, 136-138 and 175-177. The model performs the table updates as map updates, which cannot fail. `AVL.AVLTree.Insert` and `AVL.AVLTree.Remove` prove that the tree reports success exactly in these cases.
- The second lookup of the student in `completeCourse` (TechSystem26a1.cpp:169-172) repeats the check just made and is not modelled separately.
- `wet1util.h` is not part of this model. `StatusType` and `Output` (for `output_t<int>`) are defined in `TechSpec`, with only the statuses and the answer-or-status shape the operations use.
- Integers are unbounded. The 32-bit overflow of `globalBonus`, `baseCredits`, the counters and the tree heights is not modelled.
- `std::shared_ptr` reference counting is not modelled. Only the sharing is: one `StudentData` object is reachable from `students` and from every course that enrolls the student.
- Keys of the AVL tree are `int`, compared with `<` and `>`. The generic `Key` type is not modelled.
- `AVL.AVLTree.Find` returns an `Option` of the stored value instead of a pointer into the node. Writes through that pointer are not modelled, because no caller makes them.
- `Tech.TechSystem`: the `courses`, `students` and per-course `studentsInCourse` tables are Dafny maps, not `AVL.AVLTree` objects. These are the maps `AVL.AVLTree.Contents()` abstracts a tree to. `find`, `insert` and `remove` on a table are the map lookup, insert-if-absent and removal that the tree's `Find`, `Insert` and `Remove` are proved to perform. Not modelled: the tree objects themselves inside the records, and their node footprints.
- The test driver `run_tests.py` (building, running and diffing outputs) is not modelled.
