# FEBio core bookkeeping, modelled in Dafny

This project models five integer- and structure-heavy pieces of the FEBio
finite-element code and proves what they promise.

- **Equation numbering and the linear-constraint table** (`FEM::InitEquations`,
  `FEM::InitConstraints`, the step checks and plane-strain fixing of
  `FEM::Init`, the counter resets of `FEM::Reset`). Modules `Numbering` and
  `FemInit`; the node ID table and the rigid-body LM table are `array2<int>`
  fields of class `FemInit.Fem`, and every phase is a method with loops,
  proved against the pure counter pass `Numbering.Numbered`.
  - Each DOF status code decodes as follows: a value `>= 0` is a free DOF with
    that equation number; `-1` is fixed; a value `< -1` is constrained, with
    equation `-code-2`.
- **The PARDISO solver driver** (`PardisoSolver`): module `Pardiso`, class
  `PardisoSolver`. The library is an oracle whose error code is a parameter;
  every library call is appended to a `calls` trace (phase, matrix type,
  size, right-hand side), and `exit(n)` is the outcome `Exit(n)`.
- **The checkpoint chunk tree** (`OChunk`, `OBranch`, the four `OLeaf` forms,
  `Archive::WriteChunk`): module `ChunkArchive`. The tree is a class with a
  ghost `Chunk` value and `Repr` footprint; the file is an `OutStream` of
  bytes. A chunk is written as a 4-byte ID, a 4-byte payload size and the
  payload, little-endian.
- **Element selection for mesh adaptation** (`FEMeshAdaptorCriterion`,
  `FEMaxVolumeCriterion`, `FEMaxVariableCriterion`): module `MeshAdaptor`,
  class `Criterion`.
- **The MeshData section reader** (`FEBioMeshDataSection`): module
  `MeshDataSection`, class `MeshDataSection`. XML tags are datatypes, and
  `throw` is an `Error` result.

Sizes that the shown code takes from headers that are not part of this model
are parameters:
- `MAX_NDOFS` is `Fem.ndofs`, with at least 10 slots.
- `FEElement::MAX_NODES` is `MeshDataSection.maxNodes`.
- `sizeof(T)` is the `elemSize` of a leaf record.

## Model

| member | source | states |
|---|---|---|
| Numbering.NumberRow | FEBio/init.cpp:315-316 | numbering one node's row keeps every negative slot and keeps the sign of every slot |
| Numbering.RowConsecutive | FEBio/init.cpp:315-316 | the free slots of a numbered row hold c, c+1, … in slot order, one per free slot |
| Numbering.NumberedKeepsSigns | FEBio/init.cpp:291-318 | the numbering pass never moves the counter back, keeps every slot's sign, and leaves fixed or constrained slots untouched |
| Numbering.NumberedUnvisited | FEBio/init.cpp:291-318 | a row the visiting order does not name is left unchanged |
| Numbering.NumberedCount | FEBio/init.cpp:291-318 | the final counter is the start plus the number of free slots in the visited rows |
| Numbering.ClosedFormLast | FEBio/init.cpp:291-318 | the row visited last is numbered from the counter the earlier rows reached |
| Numbering.NumberedRowClosedForm | FEBio/init.cpp:291-318 | with distinct node order, the k-th visited row is numbered from the start plus the free slots of the rows before it |
| Numbering.NumberedConsecutive | FEBio/init.cpp:291-318 | the free slots, read in visiting order, hold exactly c0, c0+1, …, each once |
| Numbering.FreeCountSigns | FEBio/init.cpp:315-316 | two rows with the same sign pattern have the same number of free slots |
| Numbering.VisitedFrame | FEBio/init.cpp:291-318 | changing a row outside the visiting order does not change what the order visits |
| FemInit.Decode | FEBio/init.cpp:279-283 | code >= 0 is free, -1 fixed, below -1 constrained with equation -code-2 |
| FemInit.Encode | FEBio/init.cpp:279-283 | encoding a status and decoding it gives the status back |
| FemInit.EncodeDecode | FEBio/init.cpp:279-283 | every integer is the encoding of its decoded status |
| FemInit.RigidIndex | FEBio/init.cpp:344-350 | slots 0-2 and 7-9 map onto rigid DOFs 0-5, translations onto 0-2 |
| FemInit.RigidLink | FEBio/init.cpp:344-350 | the code -LM-2 stored in a node is fixed when LM is -1 and otherwise constrained to equation LM |
| FemInit.EquationCounts | FEBio/init.cpp:322-335 | nreq is the number of free node DOFs and neq adds one per rigid DOF whose bc is >= 0 |
| FemInit.RigidNumbering | FEBio/init.cpp:322-335 | rigid DOFs with bc >= 0 get consecutive numbers after the node equations and the others get -1 |
| FemInit.RigidNodeLinks | FEBio/init.cpp:339-352 | a node on a rigid body has slots 0,1,2,7,8,9 fixed or constrained to a rigid equation in [nreq, neq); all other slots keep their node numbering |
| FemInit.PrescribedRigid | FEBio/init.cpp:355-364 | a rigid DOF with bc > 0 ends constrained to its equation, bc = 0 stays free with it, bc < 0 stays fixed |
| FemInit.NodeStatusRange | FEBio/init.cpp:291-352 | after numbering every free node slot is below nreq, and a negative slot not overwritten by a rigid link is unchanged |
| FemInit.NodeNumberBelow | FEBio/init.cpp:291-318 | a free slot of a visited node gets a number below the final counter |
| FemInit.MarksCount | FEBio/init.cpp:326-334 | the rigid pass numbers exactly the DOFs with bc >= 0 |
| FemInit.SumFreeBound | FEBio/init.cpp:291-318 | the equations before a node plus its own never exceed the total |
| FemInit.FreeCountPrefix | FEBio/init.cpp:315-316 | a free slot has fewer free slots before it than the row has |
| FemInit.RigidInRange | FEBio/init.cpp:326-334 | a numbered rigid DOF lies between the start and the final counter |
| FemInit.Analysis.constructor | FEBio/init.cpp:417-424 | a new step keeps its step count, step size and auto-step flag, and its counters start at zero |
| FemInit.Lookup | FEBio/init.cpp:223-235 | looking up a DOF's equation keeps its node and slot |
| FemInit.Resolve | FEBio/init.cpp:219-236 | resolving a constraint keeps its slave count |
| FemInit.LastMasterMeaning | FEBio/init.cpp:239-249 | a table cell holds -1 iff no constraint masters it, otherwise the index of the last constraint that does |
| FemInit.ConstraintTableRoundTrip | FEBio/init.cpp:239-249 | a constraint that is the last master of its cell is found in the table at node*MAX_NDOFS+bc |
| FemInit.CellInRange | FEBio/init.cpp:239-248 | node*MAX_NDOFS+bc lies inside a table of Nodes*MAX_NDOFS cells |
| FemInit.PlaneStrain | FEBio/init.cpp:71-75 | plane-strain fixing keeps the number of nodes |
| FemInit.Fem.NumberNodes | FEBio/init.cpp:291-318 | the nodes are numbered in node order, or in order P when bandwidth optimisation is on, as the counter pass prescribes |
| FemInit.Fem.NumberSlots | FEBio/init.cpp:315-316 | one node's row of the table is numbered from the counter, which advances by its free-slot count, and no other row changes |
| FemInit.Fem.NumberRowSlots | FEBio/init.cpp:315-316 | the slot loop gives node n's row the numbered row and touches no other node |
| FemInit.Fem.NumberRigidBodies | FEBio/init.cpp:322-335 | nreq is the node-equation count, and the rigid LM table and neq follow the counter pass over the bc marks |
| FemInit.Fem.NumberBody | FEBio/init.cpp:326-334 | one rigid body's six DOFs are numbered from the counter and no other body changes |
| FemInit.Fem.AttachRigidNodes | FEBio/init.cpp:339-352 | every node on a rigid body gets -LM-2 in slots 0,1,2,7,8,9 and nothing else changes |
| FemInit.Fem.AttachNode | FEBio/init.cpp:344-350 | node i's slots 0,1,2,7,8,9 get -LM-2 of its body's DOFs 0-5; its other slots and all other nodes are unchanged |
| FemInit.Fem.PrescribeRigid | FEBio/init.cpp:355-364 | each rigid DOF with bc > 0 becomes -n-2 and the rest keep their value |
| FemInit.Fem.InitEquations | FEBio/init.cpp:286-368 | returns true, and the ID table, LM table, nreq and neq are those of the four numbering phases in order |
| FemInit.Fem.ResolveAll | FEBio/init.cpp:219-236 | every constraint's master and slaves take their codes from the node table, and each master ends with code -1 |
| FemInit.Fem.ResolveSlaves | FEBio/init.cpp:228-235 | each slave DOF takes its code from the node table and keeps its node, slot and coefficient |
| FemInit.Fem.BuildConstraintTable | FEBio/init.cpp:239-249 | LCT has Nodes*MAX_NDOFS cells, each the last constraint mastering it or -1 |
| FemInit.Fem.InitConstraints | FEBio/init.cpp:211-268 | returns true; with no constraints nothing changes, otherwise master and slave equations come from the ID table, LCT is the last-master table and LCA lists the constraints in order |
| FemInit.Fem.CheckSteps | FEBio/init.cpp:55-65 | no error iff every step has ntime > 0 and dt0 > 0, otherwise the first bad step is reported with its 1-based number and which check failed |
| FemInit.Fem.Init | FEBio/init.cpp:55-75 | succeeds iff the step checks pass, and then in plane-strain mode slot m_nplane_strain of every node is -1 |
| FemInit.Fem.ZeroDisplacements | FEBio/init.cpp:385-390 | rigid body i's six total and previous displacements become zero and no other body changes |
| FemInit.Fem.Reset | FEBio/init.cpp:374-424 | rigid displacements, start time and step counters are zero, dt is dt0, and the step's other settings are kept |
| Pardiso.ErrorMessage | NumCore/PardisoSolver.cpp:40-55 | error codes -1 to -8 have their own message and every other code prints " Unknown" |
| Pardiso.CreateChoice | NumCore/PardisoSolver.cpp:97-111 | only the three known matrix types give a matrix, and always a compact one |
| Pardiso.SetChoice | NumCore/PardisoSolver.cpp:114-120 | the matrix-type code is 11 or -2 |
| Pardiso.CreateThenSet | NumCore/PardisoSolver.cpp:97-120 | handing back a created matrix keeps its type code except for REAL_SYMM_STRUCTURE, which drops to 11 |
| Pardiso.CreateCodesDistinct | NumCore/PardisoSolver.cpp:102-104 | the three matrix types get three different codes |
| Pardiso.Iters | NumCore/PardisoSolver.cpp:246 | the trial count is min(N, 50) |
| Pardiso.Signs | NumCore/PardisoSolver.cpp:253 | every right-hand-side entry is +1 when the random value is >= 0 and -1 otherwise |
| Pardiso.Completed | NumCore/PardisoSolver.cpp:249-264 | the trials completed are those before the first solve error |
| Pardiso.RunningMaxBounds | NumCore/PardisoSolver.cpp:243-260 | normAi is >= 0, bounds every trial's norm, and is 0 or one of them |
| Pardiso.RunningMaxMonotone | NumCore/PardisoSolver.cpp:260 | the running maximum never decreases |
| Pardiso.EstimateAbortsIff | NumCore/PardisoSolver.cpp:249-266 | the estimate aborts with exit code 3 iff some trial's solve fails |
| Pardiso.PercentagesAt | NumCore/PardisoSolver.cpp:262 | the l-th percentage printed is the progress after trial l, one per completed trial |
| Pardiso.EstimateBounds | NumCore/PardisoSolver.cpp:266 | the estimate normA*normAi bounds normA times each trial's norm and is not negative |
| Pardiso.EstimateComplete | NumCore/PardisoSolver.cpp:249-266 | with no solve errors all trials run and the estimate is normA times the running maximum |
| Pardiso.EstimateAborted | NumCore/PardisoSolver.cpp:256 | the first failing solve ends the estimate with exit code 3 |
| Pardiso.SolveCalls | NumCore/PardisoSolver.cpp:253-256 | each trial makes one phase-33 call with its ±1 right-hand side |
| Pardiso.ProgressDividesByZero | NumCore/PardisoSolver.cpp:262 | with N = 1 there is one trial and the progress divisor iters-1 is 0 |
| Pardiso.Progress | NumCore/PardisoSolver.cpp:262 | the progress is between 0 and 100 and agrees with the source whenever iters >= 2 |
| Pardiso.ProgressBound | NumCore/PardisoSolver.cpp:262 | (100*i)/(iters-1) is between 0 and 100 for iters >= 2 |
| Pardiso.ReleaseAsWritten | NumCore/PardisoSolver.cpp:271-282 | the release call is made iff the matrix has a pointer array |
| Pardiso.DestroyWithoutMatrix | NumCore/PardisoSolver.cpp:62 | a new solver has no matrix, the state ReleaseAsWritten's requirement of an attached matrix excludes |
| Pardiso.Initial | NumCore/PardisoSolver.cpp:62 | a new solver has no matrix |
| Pardiso.Release | NumCore/PardisoSolver.cpp:271-282 | with a matrix, release behaves as written; without one, no call is made; every call is phase -1 |
| Pardiso.PardisoSolver.constructor | NumCore/PardisoSolver.cpp:62-73 | a new solver has type -2, no matrix, iterative factorisation and condition-number printing off |
| Pardiso.PardisoSolver.PrintConditionNumber | NumCore/PardisoSolver.cpp:85-88 | sets the print flag |
| Pardiso.PardisoSolver.UseIterativeFactorization | NumCore/PardisoSolver.cpp:91-94 | sets the iterative-factorisation flag |
| Pardiso.PardisoSolver.CreateSparseMatrix | NumCore/PardisoSolver.cpp:97-111 | the matrix type and storage follow the type table, and an unknown type gives null with the type code unchanged |
| Pardiso.PardisoSolver.SetSparseMatrix | NumCore/PardisoSolver.cpp:114-120 | the matrix is kept iff it is compact, the type is 11 for CRS and -2 otherwise, and the result says whether a matrix was kept |
| Pardiso.PardisoSolver.PreProcess | NumCore/PardisoSolver.cpp:123-145 | iparm takes the library defaults, n and nnz come from the matrix, nrhs = maxfct = mnum = 1 and msglvl = 0 |
| Pardiso.PardisoSolver.BackSolve | NumCore/PardisoSolver.cpp:200-224 | an empty matrix returns true with no call and iparm unchanged; otherwise one phase-33 call, iparm changed only in iparm[7] = 1, exit 3 on error, else one more solve counted |
| Pardiso.PardisoSolver.ConditionNumber | NumCore/PardisoSolver.cpp:234-268 | the estimate, the solve calls, the solve count and the printed percentages are those of the trials up to the first failure; iparm changes only in iparm[7] = 1 once a solve is made |
| Pardiso.PardisoSolver.Factor | NumCore/PardisoSolver.cpp:148-197 | empty matrix: true with nothing changed; phase 11 then 22 with only iparm[3] set (61 or 0); exit 2 on a phase-11 error, false on a phase-22 error, no solves without the estimate; with printing on, the estimate's solve calls, solve count and iparm[7] follow the two factorisation calls, and its value or exit code is the result |
| Pardiso.PardisoSolver.Destroy | NumCore/PardisoSolver.cpp:271-282 | the release call is made only when there is a matrix with a pointer array |
| ChunkArchive.Word | FEBio/Archive.h:55-58 | an unsigned int is written as 4 bytes |
| ChunkArchive.WordRoundTrip | FEBio/Archive.h:55-58 | reading the 4 bytes back gives the value modulo 2^32 |
| ChunkArchive.EncodeLength | FEBio/Archive.h:45-62 | every chunk's encoding is Size()+8 bytes long |
| ChunkArchive.EncodeAllLength | FEBio/Archive.h:45-51 | the children's encodings together are as long as the branch's Size() |
| ChunkArchive.FlattenLength | FEBio/Archive.h:103-109 | n records of sizeof(T) bytes are sizeof(T)*n bytes |
| ChunkArchive.HeaderRoundTrip | FEBio/Archive.h:53-58 | the header of an encoding reads back as the chunk's ID and Size() |
| ChunkArchive.ChildSizeBound | FEBio/Archive.h:45-51 | each child with its header fits in its branch's size |
| ChunkArchive.SplitEncodeAll | FEBio/Archive.h:60-61 | the children's concatenated encodings split back into each child's encoding, in order |
| ChunkArchive.BranchRoundTrip | FEBio/Archive.h:53-62 | a branch's payload is its children's encodings and splits back into them |
| ChunkArchive.SumSizesSnoc | FEBio/Archive.h:45-51 | adding a child adds its size plus 8 to the branch size |
| ChunkArchive.Strlen | FEBio/Archive.h:121-126 | strlen is the position of the first zero byte |
| ChunkArchive.OutStream.WriteWord | FEBio/Archive.h:55 | appends the 4 bytes of a word |
| ChunkArchive.OutStream.WriteBytes | FEBio/Archive.h:83 | appends the bytes |
| ChunkArchive.OChunk.ValidWellFormed | FEBio/Archive.h:94-164 | every chunk in a valid tree has well-formed leaves |
| ChunkArchive.OChunk.OBranch | FEBio/Archive.h:15-37 | a new branch has the ID, no children and no parent |
| ChunkArchive.OChunk.OLeafRecord | FEBio/Archive.h:74 | a new scalar leaf holds the record, with no parent |
| ChunkArchive.OChunk.OLeafArray | FEBio/Archive.h:94-100 | a new array leaf copies the first nsize records (nsize > 0), with no parent |
| ChunkArchive.OChunk.OLeafVector | FEBio/Archive.h:148-154 | a new vector leaf copies all records of a non-empty vector, with no parent |
| ChunkArchive.OChunk.OLeafText | FEBio/Archive.h:121-126 | a new string leaf copies the characters up to the terminator, with no parent |
| ChunkArchive.OChunk.Size | FEBio/Archive.h:45-51 | Size() is the size of the chunk's tree: the record size, count times record size, strlen+4, or the children's sizes plus 8 each |
| ChunkArchive.OChunk.Write | FEBio/Archive.h:53-62 | Write appends the chunk's encoding: ID, Size(), then the payload |
| ChunkArchive.OChunk.WriteChildren | FEBio/Archive.h:60-61 | a branch's children are written in insertion order |
| ChunkArchive.OChunk.WriteLeaf | FEBio/Archive.h:78-84 | a leaf's payload is its record, its records, or the string length followed by the characters |
| ChunkArchive.OChunk.WriteRecords | FEBio/Archive.h:109 | records are written one after another |
| ChunkArchive.OChunk.AddChild | FEBio/Archive.h:64 | the child goes at the end of the list and its parent becomes this branch; the branch's own parent is kept, and only the branch's children, tree and footprint change |
| ChunkArchive.Archive.constructor | FEBio/Archive.h:216 | an archive writes into the given current branch |
| ChunkArchive.Archive.WriteRecord | FEBio/Archive.h:192-195 | appends a scalar leaf to the current chunk, whose parent stays the same |
| ChunkArchive.Archive.WriteText | FEBio/Archive.h:197-200 | appends a string leaf to the current chunk, whose parent stays the same |
| ChunkArchive.Archive.WriteArray | FEBio/Archive.h:202-205 | appends an array leaf of n records to the current chunk, whose parent stays the same |
| ChunkArchive.Archive.WriteVector | FEBio/Archive.h:207-210 | appends a vector leaf to the current chunk, whose parent stays the same |
| MeshAdaptor.DefaultMaxVolume | FECore/FEMeshAdaptor.cpp:98-101 | a new volume criterion has m_maxVolume 0 |
| MeshAdaptor.DefaultMaxVariable | FECore/FEMeshAdaptor.cpp:118-122 | a new variable criterion has m_maxValue 0 and no DOF (-1) |
| MeshAdaptor.MaxNodal | FECore/FEMeshAdaptor.cpp:132-137 | the running maximum from -1e99 bounds every nodal value and is -1e99 or one of them |
| MeshAdaptor.CheckMeaning | FECore/FEMeshAdaptor.cpp:89-140 | the base check selects nothing; the volume check selects exactly solid elements with volume >= m_maxVolume; the variable check selects exactly solid elements, when a DOF is set, with some nodal value >= m_maxValue |
| MeshAdaptor.Truncated | FECore/FEMeshAdaptor.cpp:76-83 | the result is a prefix of length min(n, m_maxelem) when m_maxelem > 0, the whole list otherwise |
| MeshAdaptor.CandidatesExactly | FECore/FEMeshAdaptor.cpp:46-63 | an index is a candidate iff its element, counted across all domains, is active and selected by the check, with the value the check computed |
| MeshAdaptor.CandidatesIncreasing | FECore/FEMeshAdaptor.cpp:46-63 | candidates come in strictly increasing global index order |
| MeshAdaptor.BaseSelectsNothing | FECore/FEMeshAdaptor.cpp:89-92 | the base criterion's list is empty |
| MeshAdaptor.Insert | FECore/FEMeshAdaptor.cpp:71-73 | inserting into a list ordered by non-increasing value keeps it ordered and adds exactly that element |
| MeshAdaptor.SortByValue | FECore/FEMeshAdaptor.cpp:70-74 | the sorted list is a permutation of the input in non-increasing order of value |
| MeshAdaptor.Criterion.constructor | FECore/FEMeshAdaptor.cpp:21-25 | a new criterion does not sort and has m_maxelem 0 |
| MeshAdaptor.Criterion.SetSort | FECore/FEMeshAdaptor.cpp:27-30 | sets the sort flag |
| MeshAdaptor.Criterion.SetMaxElements | FECore/FEMeshAdaptor.cpp:32-35 | sets the maximum element count |
| MeshAdaptor.Criterion.MaxNodalValue | FECore/FEMeshAdaptor.cpp:132-137 | the loop computes the maximum nodal value from -1e99 |
| MeshAdaptor.Criterion.Check | FECore/FEMeshAdaptor.cpp:89-140 | the check of the criterion's kind; only solid elements and non-base criteria are ever selected |
| MeshAdaptor.Criterion.GetElementList | FECore/FEMeshAdaptor.cpp:38-87 | the result is the candidates' indices, in mesh order or sorted by non-increasing value (a permutation of the candidates), cut to m_maxelem when that is positive |
| MeshAdaptor.Criterion.CollectDomain | FECore/FEMeshAdaptor.cpp:48-63 | one domain's elements are checked in order and the global counter advances by the domain's size |
| MeshAdaptor.UnsortedIncreasing | FECore/FEMeshAdaptor.cpp:46-83 | without sorting the returned indices are strictly increasing |
| MeshAdaptor.SortedValuesNonIncreasing | FECore/FEMeshAdaptor.cpp:70-83 | with sorting the returned elements' values do not increase |
| MeshDataSection.TableContents | FEBioXML/FEBioMeshDataSection.cpp:26-36 | with distinct IDs every element sits in slot ID-1, and a filled slot holds the element whose ID is the slot plus one |
| MeshDataSection.TableFull | FEBioXML/FEBioMeshDataSection.cpp:26-36 | with IDs 1..nelems every slot of the table is filled |
| MeshDataSection.TableStep | FEBioXML/FEBioMeshDataSection.cpp:33-34 | the slot an element goes into is still empty, so the source's assertion holds |
| MeshDataSection.Take | FEBioXML/FEBioMeshDataSection.cpp:131 | at most nvalues values are read, a prefix of the tag's values |
| MeshDataSection.Expand | FEBioXML/FEBioMeshDataSection.cpp:144-154 | an element set gives one record per member with its 0-based ID and the same values |
| MeshDataSection.ItemMeaning | FEBioXML/FEBioMeshDataSection.cpp:121-156 | an elem tag is accepted iff 1 <= id <= nelems and gives one record for id-1; an elset tag iff its set exists, giving one record per member with equal values; any other tag is rejected |
| MeshDataSection.RecordsOkIff | FEBioXML/FEBioMeshDataSection.cpp:118-159 | the element data is accepted iff every child tag is |
| MeshDataSection.RecordsInRange | FEBioXML/FEBioMeshDataSection.cpp:125-154 | every record names an element of the mesh and carries at most nvalues values |
| MeshDataSection.RecordsCount | FEBioXML/FEBioMeshDataSection.cpp:132-154 | one record per elem tag plus one per member of each elset |
| MeshDataSection.ThicknessAccepted | FEBioXML/FEBioMeshDataSection.cpp:61-72 | shell-thickness data is accepted iff every record names a shell with as many values as nodes |
| MeshDataSection.ThicknessWrites | FEBioXML/FEBioMeshDataSection.cpp:61-72 | accepted thickness data gives each shell named the values of its last record and leaves the other elements alone |
| MeshDataSection.FibersAccepted | FEBioXML/FEBioMeshDataSection.cpp:85-94 | fibre data is accepted iff every record has exactly 3 values |
| MeshDataSection.FibersWrites | FEBioXML/FEBioMeshDataSection.cpp:85-94 | accepted fibre data gives each element named the vector of its last record and leaves the others alone |
| MeshDataSection.SectionsAccepted | FEBioXML/FEBioMeshDataSection.cpp:39-53 | a section is accepted only if every child is elem_data of type "shell thickness" or "fiber", so mat_axis always fails |
| MeshDataSection.MeshDataSection.constructor | FEBioXML/FEBioMeshDataSection.cpp:10-17 | a section reads the given version and mesh and has written nothing yet |
| MeshDataSection.MeshDataSection.ParseElementData | FEBioXML/FEBioMeshDataSection.cpp:106-160 | the records of the children, or the first error, starting from an empty list |
| MeshDataSection.MeshDataSection.ParseShellThickness | FEBioXML/FEBioMeshDataSection.cpp:57-73 | a reading error changes nothing; otherwise the records are applied in order until the first bad one |
| MeshDataSection.MeshDataSection.ParseMaterialFibers | FEBioXML/FEBioMeshDataSection.cpp:81-95 | a reading error changes nothing; otherwise each fibre is set in order until a record without 3 values |
| MeshDataSection.MeshDataSection.ParseMaterialAxes | FEBioXML/FEBioMeshDataSection.cpp:98-103 | mat_axis data is always rejected |
| MeshDataSection.MeshDataSection.BuildTable | FEBioXML/FEBioMeshDataSection.cpp:26-36 | the table has nelems slots and holds each element at ID-1 |
| MeshDataSection.MeshDataSection.FillDomain | FEBioXML/FEBioMeshDataSection.cpp:29-35 | one domain's elements are entered into their slots |
| MeshDataSection.MeshDataSection.Parse | FEBioXML/FEBioMeshDataSection.cpp:7-54 | a version below 0x0205 is rejected, a leaf tag is accepted with no effect, an empty mesh is rejected; otherwise the table is full and the children are handled in order until the first error |
| MeshDataSection.MeshDataSection.ParseTag | FEBioXML/FEBioMeshDataSection.cpp:42-50 | dispatches on the type: shell thickness, fiber, mat_axis, anything else or a non-elem_data tag is rejected |

## Left out

- Everything in `FEM::Init` and `FEM::Reset` beyond the step checks, the plane-strain fixing and the counter and rigid-displacement resets is not modelled. This covers logfile, plot database, `Hello`, `DoCallback`, `srand`, load-curve evaluation, mesh/domain/contact `Init`, and `InitMaterials`. They are I/O, callbacks or bodies not shown.
- The quaternion, centre-of-mass, reaction and rigid-joint assignments in `FEM::Reset` are floating-point vector state and are not modelled.
- FemInit.Fem.Reset: always returns true. The plot-database open failure at FEBio/init.cpp:430-438 is I/O.
- `FENodeReorder::Apply` is not part of this model. Its permutation P is an input whose entries must be node indices.
- FemInit.Fem.InitConstraints: requires every master DOF's ID to be -1 and every constraint to name an existing node and slot. The source asserts the first (FEBio/init.cpp:226) and indexes without checking the second. The `m_LCSet` initialisation at FEBio/init.cpp:260-265 calls code that is not shown.
- `m_LCA` holds pointers to the constraints. The model holds their indices 0..n-1.
- The PARDISO library itself is an oracle: factorisation, solution values, `randomVector`, `infNorm`, the `m_pt` handle and `MKL_Free_Buffers`. Error codes, random vectors and norms are parameters.
- `PreProcess` takes the library defaults that `pardisoinit` writes, and the result of `LinearSolver::PreProcess`, as parameters.
- The `PARDISODL` branch of the constructor (`exit(1)`) is a build-time option and is not modelled.
- Output to `stderr` and `feLog` is not modelled, except that the progress percentage is returned.
- Pardiso.ErrorMessage: only states which codes print " Unknown". That the eight known messages differ from each other is not proved.
- `UpdateStats(1)` is the counter `solves`.
- `fwrite`, `FILE*`, `memcpy`, and the `Archive` members whose bodies are not shown (`Create`, `BeginChunk`, `EndChunk`, `Close`, `Flush`, `m_pRoot`) are not modelled. The output is a byte sequence.
- ChunkArchive.OChunk.Size: `Size()` returns an `int` in the source. The model's size is unbounded, and chunk IDs and sizes below 2^32 are assumed where they are written as words.
- The branch destructor's deletion of children is not modelled.
- `GetMeshPartition`, `dynamic_cast` and element volume computation are not modelled. An element carries its volume and whether its domain is solid.
- MeshAdaptor.Criterion.GetElementList: the order among equal values after sorting is unspecified, as with `std::sort`. The contract states only a permutation in non-increasing order.
- MeshAdaptor.CheckMeaning: the variable criterion's if-and-only-if is stated for m_maxValue above -1e99. At or below that start value the running maximum itself decides.
- The parameter-registration macros (`ADD_PARAMETER`) are not modelled. A criterion's parameters are the `Kind` it is built with.
- `XMLTag`/`XMLReader` internals are not modelled: `++tag`, `isend`, `AttributeValue`, `atoi` and `value`. The id attribute is given as the number `atoi` yields. `value` reads the first n values. A missing attribute is not modelled.
- An `<elem_data>` with no children is rejected. The reader moves past its end to a tag that is neither elem nor elset.
- MeshDataSection.MeshDataSection.Parse: requires element IDs to be exactly 1..nelems, each once, and element-set members to be IDs of the mesh. The source indexes `m_pelem` by these without checking and asserts that no slot is filled twice.
- `set_element_fiber` is defined elsewhere. The model records the vector handed to it per element. Shell thickness and fibres are kept per 0-based element index, not inside element objects.

## Findings

| source | as written | input that shows it | evidently intended | confidence | as-written member | corrected member |
|---|---|---|---|---|---|---|
| NumCore/PardisoSolver.cpp:262 | the progress percentage divides by iters-1 | a matrix with N = 1 rows: iters = 1, so the divisor is 0 on the only trial | a percentage between 0 and 100 for every trial, e.g. 100 when there is only one | not executed | Pardiso.ProgressDividesByZero | Pardiso.Progress |
| NumCore/PardisoSolver.cpp:277 | `Destroy` reads `m_pA->Pointers()` without checking `m_pA` | a solver destroyed before any matrix is created: the constructor sets `m_pA` to 0 (line 62) and the destructor calls `Destroy` (line 78) | no release call when there is no matrix | not executed | Pardiso.DestroyWithoutMatrix | Pardiso.Release |
