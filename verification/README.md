# rxv6 in Dafny

A model of the cores of rxv6, a small Unix kernel with user programs, and proofs about whole runs
and whole inputs of each of them.  Operations that change things in place are classes and methods;
each is proved against functions on values, and the promises are proved about those functions.

| area | files |
|---|---|
| chess engine: board, move generation, rules, laws of movement, game tree, search | ChessBoard, ChessMoves, ChessRules, ChessLaws, ChessEngine, ChessEval, ChessTree, ChessSearch |
| integer factoring | NumberTheory, Factor |
| file system: buffer cache, pointer tree, free map, inodes, directories | FsBytes, BufferCache, FsTree, FsFreeMap, FsSteps, FsCost, FsInode, FsDirectory, FsReports |
| write-ahead log, offline image builder | FsLog, MkDisk |
| user heap, kernel heap, page bitmap | UserHeap, KernelHeap, KernelBitmap |
| frame table, page tables, eviction, swap, reloading, threads coming and going, program loading | VmFrame, VmPage, VmLife, VmRun, VmPager, VmLoader |
| pipes, descriptors, semaphores | Pipe, PipeWaiting, Descriptors, Semaphore |
| shell parser | ShellSyntax, ShellParser, ShellRoundTrip |

How the main arguments go:

- Chess.  A board invariant over runs (castling rights, en passant, king squares) makes undo exact;
  captures shrink the board, so quiescence ends; alpha-beta is then proved equal to negamax inside
  its window, with the best move at the root.  Attacks and moves are proved to be those of the laws of
  chess, stated by files, ranks and the squares between; and the value of a position reaches a mate
  score exactly if mate can be forced within the depth, so the search mates if it can.
- Factoring.  Fermat's theorem gives that primes pass every Miller-Rabin base; Floyd's argument
  gives that rho ends; together every rejected cofactor is split, and the 64 slots suffice.
- File system.  Every inode is a tree of slots (itself, data, indirect, doubly indirect, inner) over
  the device, which between operations is also what the buffer cache shows.  One owner a sector and marked in the free map is kept by
  every operation, reads and writes refine a plain byte sequence, and every operation gives back the
  buffers it takes.  What a write costs is the number of slots missing on the way to its blocks, and it
  goes through exactly when that many sectors are free.  The image builder is proved to lay files out
  where the same tree finds them.
- Log.  Every single device write of commit and of recovery is a crash point.  What recovery installs
  comes from the log alone, the last copy of a sector winning, so it can be broken off and repeated.
- Heaps.  In the user heap free and live blocks partition the bytes obtained; in the kernel heap they
  stay apart and inside it, and what allocations lose between them is bounded.  Both free lists live in block headers and are walked and relinked there.
- Virtual memory.  The bytes of a page are defined wherever the page is.  Runs of evictions, reloads
  and user writes, of threads that come, get entries and mappings and exit, keep the tables consistent
  from boot on, and what becomes of the bytes is proved exactly.  The pages the loader enters, side by
  side, are the program.
- Pipes and semaphores.  Step machines over all interleavings at the points where the lock or the
  processor is given up.
- Shell.  The parser's grammar functions invert every rendering of command trees in a family of styles:
  with and without a last separator, with newlines wherever they may stand, with redirections before or
  after the words and the four spellings of the stderr redirection.

Where a promise of the code or its comments fails, the code is modelled and the exact condition under
which the promise holds is proved, so that every other input is one where it fails:

- The log is described as written before the sectors reach their homes; the code copies them from
  their homes, so over all crash points, before and during commit, a transaction is atomic exactly if it
  has at most one sector (FsLog.AtomicOnlyForOneSector).
- The user heap reserves padding for alignment but never moves the pointer, so alignments above 8
  are not honoured (UserHeap.AlignedUpToEight).
- The shell's list loop skips newlines before it looks for one as a separator, so a newline without a
  semicolon or an ampersand in front of it ends the list.  Parsing takes the commands up to the first
  that only a newline ends, and takes everything exactly if there is none but the last
  (ShellRoundTrip.FirstLineOnly, ShellRoundTrip.NewlinesSeparate).  An if, while, until or for, or a
  subshell, whose body has a second line ends there without its closing keyword, and the second line
  and the keyword are left over (ShellRoundTrip.BodyFirstLineOnly, ShellRoundTrip.BodiesOnOneLine).
- A page reloaded from swap counts as clean although its only copy is in memory, so the next eviction
  drops what it held (VmRun.PageLost, VmRun.LoadThenEvict, VmRun.LostIff).
- A semaphore's up gives up the processor between waking a higher-priority waiter and counting up,
  which loses wake-ups (Semaphore.WakeUpLost, Semaphore.NeverLostIffEqual).
- Directory add and remove report success without looking at how much was written (FsReports,
  FsDirectory.AddHonest, FsDirectory.Add, FsDirectory.Remove).
- The buffer cache is announced as LRU; it reuses the first buffer nobody holds, and since operations
  hold one at a time it keeps one sector, as LRU would exactly if no other was ever asked for
  (BufferCache.MostRecentThrownOut, BufferCache.LruOnlyForOneSector).
- The image builder leaves out the pointers of its free map past the indirect block, so the map is right
  exactly if the builder used no sector from 573,440 on; from there on used sectors are reported free
  (MkDisk.MapRightIff).
- The loader maps one range of the file for all segments of a program, so a segment is loaded from where
  its header says exactly if its offset and address differ by as much as those of the lowest, and the
  rest of it is zero exactly if it lies past the file bytes of all (VmLoader.SegmentsMisplaced,
  VmLoader.SegmentRightIff, VmLoader.RestZeroIff).
- The last close of a pipe end wakes one waiter, not all (PipeWaiting.OneReaderLeft,
  PipeWaiting.EndReachesReaders, PipeWaiting.EndReachesWriters).

Two comments say something else than the code without any promise depending on it: Pollard's rho is
announced with Brent's improvement and is Floyd's two-speed iteration, and the move ordering keeps
captures and promotions together.

## Model

| member | source | states |
|---|---|---|
| ChessBoard.UnpackPack | user/tests/chess/src/main.rs:122-127 | A move survives being packed into 16 bits and unpacked. |
| ChessBoard.PackUnpack | user/tests/chess/src/main.rs:122-127 | Every 16-bit word is the packing of the move it unpacks to. |
| ChessBoard.Board.constructor | user/tests/chess/src/main.rs:78-101 | The initial position. |
| ChessBoard.Board.PlacePieces | user/tests/chess/src/main.rs:420-478 | The squares after a move, and the piece taken, en passant victims included. |
| ChessBoard.Board.DropRights | user/tests/chess/src/main.rs:485-491 | Castling rights lost by a move from or to a king or rook square. |
| ChessBoard.Board.MakeMove | user/tests/chess/src/main.rs:411-496 | The in-place update of the board is the successor position, and the undo record holds all it overwrites. |
| ChessBoard.Board.UnmakeMove | user/tests/chess/src/main.rs:498-548 | The in-place undo is the predecessor position described by the undo record. |
| ChessMoves.GenMovesFit | user/tests/chess/src/main.rs:163-320 | Every generated move fits its board: it starts on an own piece and its flag tells the truth about the target, the en passant square, the castling path and the promotion rank. |
| ChessRules.UnmakeRestores | user/tests/chess/src/main.rs:411-548 | unmake_move after make_move restores the whole board, for quiet moves, captures, en passant, castling and promotion, on every board satisfying the run invariant. |
| ChessRules.MakeKeepsInv | user/tests/chess/src/main.rs:411-496 | A move keeps the run invariant: castling rights imply king and rook at home, and an en passant square implies the double-pushed pawn in place with the square behind it empty. |
| ChessRules.CountMake | user/tests/chess/src/main.rs:411-496 | For any class of pieces, a move changes their number by exactly the victim and the promotion. |
| ChessRules.CaptureShrinks | user/tests/chess/src/main.rs:411-496 | Pieces on the board go down by one exactly on captures; this bounds quiescence. |
| ChessRules.SideCounts | user/tests/chess/src/main.rs:411-496 | The mover keeps its number of pieces; the opponent loses one exactly on captures. |
| ChessRules.RayWalksBack | user/tests/chess/src/main.rs:269-288 | The first piece met walking back from any square a slider can reach is the slider itself. |
| ChessRules.CaptureIsAttack | user/tests/chess/src/main.rs:163-393 | Move generation and attack detection agree: the target of every generated capture is attacked in the sense of sq_attacked. |
| ChessRules.KingNeverTaken | user/tests/chess/src/main.rs:163-398 | With the side not to move out of check, no generated move lands on a king. |
| ChessRules.LegalKeepsKings | user/tests/chess/src/main.rs:552-568 | A legal move keeps both kings on the board, the tracked king squares right, and the opponent unable to take a king. |
| ChessRules.StartIsSafe | user/tests/chess/src/main.rs:78-101 | The initial position satisfies all of these invariants. |
| ChessRules.RunKeepsInv | user/tests/chess/src/main.rs:196-496 | Over every run of generated moves the board invariant holds. |
| ChessRules.UndoIsExactInPlay | user/tests/chess/src/main.rs:411-548 | On every board reachable from the initial one by generated moves, undo is exact. |
| ChessRules.GameTakenBack | user/tests/chess/src/main.rs:411-548 | Taking back a whole game move by move, last first, returns the board it began on. |
| ChessRules.LegalRunKeepsKings | user/tests/chess/src/main.rs:552-568 | Over every run of legal moves the king invariants hold. |
| ChessRules.KingsSurviveLegalPlay | user/tests/chess/src/main.rs:163-568 | In every game of legal moves from the initial position, no generated move ever lands on a king. |
| ChessRules.RightsInPlay | user/tests/chess/src/main.rs:485-491 | In every run a castling right is held exactly as long as its king has not moved and its rook has neither moved nor been taken. |
| ChessRules.RightsMeanHome | user/tests/chess/src/main.rs:485-491 | In every legal game a side that holds a right has king and rook at home. |
| ChessRules.HalfMoveClock | user/tests/chess/src/main.rs:411-496 | The clock counts the moves since the last pawn move or capture, modulo 65536. |
| ChessLaws.AttackedIff | user/tests/chess/src/main.rs:324-393 | sq_attacked holds exactly if some piece of that side bears on the square by the laws: a knight by its leap, a king by a step, bishop, rook and queen along a line with nothing between, a pawn diagonally ahead. |
| ChessLaws.MovesBelowIff | user/tests/chess/src/main.rs:163-320 | The generated moves are exactly those of the laws, all of them and no others: pushes, double pushes, captures, en passant, promotions, steps, slides and castlings, in terms of squares and rights. |
| ChessLaws.MovesAreLawful | user/tests/chess/src/main.rs:163-320 | Every move in the list of 256 is lawful, and as long as they fit every lawful move is in it. |
| ChessLaws.AttackIsCapture | user/tests/chess/src/main.rs:163-393 | The converse of CaptureIsAttack: every enemy piece on a square sq_attacked reports as attacked is the target of a generated capture. |
| ChessLaws.ReachIsMove | user/tests/chess/src/main.rs:254-288 | Every empty square a knight, king or slider bears on is the target of a quiet move of that piece. |
| ChessLaws.AnyPromotion | user/tests/chess/src/main.rs:196-252 | A pawn pushed to the last rank can become a knight, bishop, rook or queen, and the board after the move holds that piece. |
| ChessLaws.EnPassantAnswers | user/tests/chess/src/main.rs:236-251 | A pawn that advances two squares past an enemy pawn can be taken en passant on the next move, and is then off the board. |
| ChessLaws.CastledTogether | user/tests/chess/src/main.rs:445-470 | Castling brings the king two squares on and the rook across it, and empties their home squares. |
| ChessEngine.MoveList.Push | user/tests/chess/src/main.rs:145-155 | The fixed list appends until it holds 256 moves and then drops. |
| ChessEngine.StepScan | user/tests/chess/src/main.rs:324-393 | Whether a pawn, knight or king attacks, as an existential over directions. |
| ChessEngine.RayScan | user/tests/chess/src/main.rs:361-393 | The first piece along a ray. |
| ChessEngine.SlideScan | user/tests/chess/src/main.rs:361-393 | Whether a slider of the right kind is the first piece along some ray. |
| ChessEngine.SqAttacked | user/tests/chess/src/main.rs:324-393 | The scanning loops decide the attack relation. |
| ChessEngine.GenStepMoves | user/tests/chess/src/main.rs:254-267 | The moves appended for a stepping piece. |
| ChessEngine.GenSlideMoves | user/tests/chess/src/main.rs:269-288 | The moves appended for a sliding piece. |
| ChessEngine.GenPawnMoves | user/tests/chess/src/main.rs:196-252 | The pushes, double pushes, captures, en passant captures and promotions appended for a pawn. |
| ChessEngine.GenCastleMoves | user/tests/chess/src/main.rs:290-320 | The castling moves appended, each behind its right, its empty path and its unattacked squares. |
| ChessEngine.GenerateMoves | user/tests/chess/src/main.rs:163-194 | The in-place generator produces the move list of the position, in order and capped at 256; ChessLaws.MovesBelowIff says which moves those are. |
| ChessEval.Evaluate | user/tests/chess/src/main.rs:661-676 | The loop sums material and piece-square values from the mover's side. |
| ChessEval.EvaluationBounds | user/tests/chess/src/main.rs:576-676 | With one king a side and at most sixteen pieces a side, the evaluation stays within 15200, well inside the mate scores. |
| ChessEval.MoveGains | user/tests/chess/src/main.rs:661-676 | The mover's score changes by how much better its piece stands, in the tables mirrored for black, and by the value and standing of the piece it takes. |
| ChessEval.EvaluationIsFair | user/tests/chess/src/main.rs:654-676 | With colours and ranks exchanged the side to move has the same score. |
| ChessTree.KeepLegalMembers | user/tests/chess/src/main.rs:552-568 | A generated move is kept exactly when it leaves its own king unattacked. |
| ChessTree.LegalIffLawful | user/tests/chess/src/main.rs:552-568 | The legal moves are exactly the lawful ones that leave the own king on a square nothing bears on, as long as the list holds them. |
| ChessSearch.GenLegalMoves | user/tests/chess/src/main.rs:552-568 | Make, test and unmake on a copy yields the legal moves in generation order. |
| ChessSearch.OrderedPermutes | user/tests/chess/src/main.rs:726-738 | Captures-first ordering is a permutation of the moves. |
| ChessSearch.TacticalFirst | user/tests/chess/src/main.rs:726-738 | Captures and promotions come before all other moves. |
| ChessSearch.SelectInOrder | user/tests/chess/src/main.rs:726-738 | Within the two groups moves stay in generation order. |
| ChessSearch.OrderMoves | user/tests/chess/src/main.rs:726-738 | The two passes of the copy loop compute that ordering. |
| ChessSearch.Collect | user/tests/chess/src/main.rs:726-738 | One pass puts the chosen moves, in generation order, behind those already there. |
| ChessTree.BestIsUpperBound | user/tests/chess/src/main.rs:713-753 | Negamax is at least the value of every move. |
| ChessTree.BestIsAttained | user/tests/chess/src/main.rs:713-753 | Negamax is the value of some move. |
| ChessTree.QValueIsBest | user/tests/chess/src/main.rs:688-711 | The quiescence value is at least the standing score and at least the value of every legal capture. |
| ChessTree.QBestAttained | user/tests/chess/src/main.rs:688-711 | The quiescence value is the standing score or the value of some legal capture. |
| ChessSearch.Quiesce | user/tests/chess/src/main.rs:688-711 | Pruned quiescence terminates, leaves the board as found, and returns the full capture-tree value clamped to the window. |
| ChessSearch.PrunedInWindow | user/tests/chess/src/main.rs:713-753 | Searching a child in the negated window loses nothing inside the window. |
| ChessSearch.SearchMoves | user/tests/chess/src/main.rs:739-753 | The alpha-raising loop with cut-off returns the best value clamped to the window, and at the root names the first move attaining it. |
| ChessSearch.AlphaBeta | user/tests/chess/src/main.rs:713-753 | Alpha-beta refines unpruned negamax over the legal moves: exact inside the window, a correct bound outside, with mates and stalemates scored as ChessTree.MateIff and ChessTree.StalemateIsWorthNothing say; board unchanged; best move at the root. |
| ChessTree.NegamaxBounds | user/tests/chess/src/main.rs:713-777 | Mate-distance scores stay inside the root window, so the root search is never outside it. |
| ChessTree.MateIff | user/tests/chess/src/main.rs:719-753 | Up to depth 13,800 the value of a position reaches MATE - ply - n exactly if the side to move can force mate within n moves, and -(MATE - ply - n) exactly if it is mated or will be within n moves whatever it plays. |
| ChessTree.BestMoveMates | user/tests/chess/src/main.rs:719-753 | A best move mates as fast as can be forced within the depth, and allows a mate within the depth only if none of the moves avoids it. |
| ChessTree.StalemateIsWorthNothing | user/tests/chess/src/main.rs:719-724 | A move that leaves the opponent stalemated is worth 0, so it is best only if no legal move is worth more. |
| ChessSearch.RootResult | user/tests/chess/src/main.rs:755-777 | A full-window root search yields a legal move attaining the negamax value whenever there is a legal move. |
| ChessSearch.Search | user/tests/chess/src/main.rs:755-777 | Iterative deepening returns a best move of the full depth, or none exactly when there is no legal move or no depth, and leaves the board as found; at depth 2 and more it mates at once whenever some move does, it forces mate as fast as can be done within the depth, and is mated within the depth only if that cannot be avoided. |
| NumberTheory.Fermat | user/tests/factor/src/main.rs:136-164 | Fermat's little theorem, on which the primality test rests. |
| NumberTheory.SquareRootsOfOne | user/tests/factor/src/main.rs:156-164 | Modulo a prime only 1 and -1 square to 1. |
| Factor.PowMod | user/tests/factor/src/main.rs:167-178 | Square-and-multiply computes the power modulo m. |
| Factor.MillerTest | user/tests/factor/src/main.rs:156-164 | The loop decides whether the chain of squarings of a^d starts at 1 or meets -1. |
| Factor.PrimePassesBase | user/tests/factor/src/main.rs:156-164 | A prime passes the test for every base below it. |
| Factor.StrongIff | user/tests/factor/src/main.rs:156-164 | A number passes the test to a base exactly if a^(n-1) is 1 modulo n and the squarings on the way show no square root of 1 other than 1 and n - 1. |
| Factor.AcceptedPassesFermat | user/tests/factor/src/main.rs:136-154 | Whatever is_prime accepts passes Fermat's test to all its bases. |
| Factor.IsPrime | user/tests/factor/src/main.rs:136-154 | The loop over the seven bases, bases not below n skipped, decides whether n passes every one after the small cases. |
| Factor.PrimesAccepted | user/tests/factor/src/main.rs:136-154 | is_prime never rejects a prime. |
| Factor.Gcd | user/tests/factor/src/main.rs:186-189 | The result is a common divisor that every common divisor divides. |
| Factor.FloydMeets | user/tests/factor/src/main.rs:66-75 | The slow and the fast iteration meet, for every constant and modulus. |
| Factor.RhoAttempt | user/tests/factor/src/main.rs:66-75 | One attempt terminates with a divisor above 1. |
| Factor.TrialDivisor | user/tests/factor/src/main.rs:83-88 | The fallback returns a divisor above 1, and n itself only for a prime. |
| Factor.PollardRho | user/tests/factor/src/main.rs:60-91 | A divisor above 1, smaller than n exactly when n is composite. |
| Factor.SlotsLeft | user/tests/factor/src/main.rs:94-133 | While a cofactor above 1 is left, fewer than 62 of the 64 slots are used. |
| Factor.DivideOut | user/tests/factor/src/main.rs:98-101 | Dividing out a factor keeps product and cofactor in balance and leaves a cofactor it no longer divides. |
| Factor.TrialPhase | user/tests/factor/src/main.rs:95-103 | Trial division below 1000 leaves 1 or a prime for inputs below 1,002,001. |
| Factor.SortFactors | user/tests/factor/src/main.rs:127-131 | The factors end up sorted, and are the same factors. |
| Factor.SplitRound | user/tests/factor/src/main.rs:109-125 | A round on a rejected cofactor makes it strictly smaller. |
| Factor.ExtractFactors | user/tests/factor/src/main.rs:94-133 | For every input from 1 below 2^63: terminates with a sorted list of factors above 1, each accepted by is_prime, whose product is the input, all of them prime for inputs below 1,002,001. |
| FsBytes.WordOfSetWord | src/filesys/inode.rs:20-50 | Writing a little-endian word changes that word and no other. |
| FsFreeMap.BitSetGet | src/filesys/free_map.rs:18-42 | Setting a bit changes that bit and no other; bits past the map are ignored. |
| FsTree.AtLink | src/filesys/inode.rs:472-543 | Linking a zeroed sector into one slot of one inode changes that slot and no slot of any inode. |
| FsTree.TreeLink | src/filesys/inode.rs:472-543 | Linking keeps one owner a sector and every owned sector marked. |
| FsTree.LinkFrame | src/filesys/inode.rs:472-543 | Linking leaves every other file as it was. |
| FsTree.TreeDataWrite | src/filesys/inode.rs:378-388 | Writing a data block changes no pointer. |
| FsTree.TreeReset | src/filesys/inode.rs:223-261 | Clearing an inode whose blocks are freed keeps ownership and marking for all others. |
| FsTree.TreeDrop | src/filesys/inode.rs:176-213 | Dropping a removed inode whose sectors are freed keeps them too. |
| FsSteps.LookupIsAt | src/filesys/inode.rs:420-460 | The three-level lookup through the inode in memory finds the slot of the tree. |
| FsInode.FileSystem.constructor | src/filesys/free_map.rs:44-56 | A fresh file system marks sectors 0 and 1 only. |
| FsInode.FileSystem.Allocate | src/filesys/free_map.rs:59-79 | First fit: the least run of free sectors from sector 2 on, and exactly those marked; none only when there is no such run. |
| FsInode.FileSystem.Release | src/filesys/free_map.rs:82-86 | Exactly the sector given is freed. |
| FsInode.FileSystem.AllocateBlockFor | src/filesys/inode.rs:472-543 | The new block and the tables on the way to it end in their slots and no other slot moves, on the direct, indirect and doubly indirect paths; it succeeds exactly if as many sectors are free as are missing on the way, and takes exactly those. |
| FsInode.FileSystem.WriteAt | src/filesys/inode.rs:341-405 | The file becomes its old bytes, zero-padded to the offset and overwritten with exactly the bytes reported, on the device; every other file and every open count is untouched; it is complete exactly if writes are not denied and as many sectors are free as the touched blocks miss; no other block is allocated; ownership, cache and reference counts are as before. |
| FsInode.FileSystem.Length | src/filesys/inode.rs:264-271 | The length on disk, also when answered from memory. |
| FsInode.FileSystem.ReadAt | src/filesys/inode.rs:283-322 | Exactly the stored slice, across direct, indirect and doubly indirect blocks and holes, and nothing past it in the buffer. |
| FsInode.FileSystem.Truncate | src/filesys/inode.rs:223-261 | On the device the file is empty; exactly its own block and pointer sectors are freed, every other file and every open count is untouched. |
| FsInode.FileSystem.Open | src/filesys/inode.rs:137-166 | The open count of that inode goes up by one, from none to one when it was not open. |
| FsInode.FileSystem.OpenFreeMap | src/filesys/free_map.rs:107-118 | Reading the bitmap from sector 0 puts the file system in order with all inodes on the disk. |
| FsInode.FileSystem.Remove | src/filesys/inode.rs:216-220 | An open inode is marked, and nothing else changes. |
| FsInode.FileSystem.DenyWrite | src/filesys/inode.rs:325-330 | The deny count of an open inode goes up by one. |
| FsInode.FileSystem.AllowWrite | src/filesys/inode.rs:332-338 | The deny count goes down by one unless it is zero. |
| FsInode.FileSystem.Create | src/filesys/inode.rs:110-133 | It succeeds exactly if as many sectors are free as the length needs; then the inode joins the live ones as a file of zeros, on the device; otherwise no live file has changed. |
| FsInode.FileSystem.Close | src/filesys/inode.rs:176-213 | The last close of a removed inode frees exactly its own sectors and takes it out of the live ones; any earlier close only counts, and the last close of any other inode frees nothing. |
| FsDirectory.EntryRoundTrip | src/filesys/directory.rs:33-43 | An entry made for a name matches that name and no other, and gives its sector back. |
| FsDirectory.AddedLookup | src/filesys/directory.rs:118-156 | An entry put into a free or new slot adds exactly its name to the map the directory stands for. |
| FsDirectory.RemovedLookup | src/filesys/directory.rs:160-193 | Clearing an entry's flag removes exactly its name. |
| FsDirectory.Lookup | src/filesys/directory.rs:98-115 | The scan answers as that map does. |
| FsDirectory.Add | src/filesys/directory.rs:118-156 | Both what is reported and what is done, as conditions on the state before: true exactly if the name may be added and a slot is unused or the entry can be written; added exactly if the name may be added and the entry can be written; no other name changes. |
| FsDirectory.IsEmpty | src/filesys/directory.rs:238-257 | True exactly when no entry in use has a name other than the two dots. |
| FsDirectory.IgnoredMeans | src/filesys/directory.rs:238-257 | An entry is passed over by is_empty exactly when every name it matches is one of the two dots. |
| FsDirectory.Remove | src/filesys/directory.rs:160-193 | True, with the target marked, exactly for a name that is there and stands for a file or an empty directory; the name is gone exactly if besides writes are not denied and the sectors its entry misses are free; no other name changes. |
| FsLog.HeaderRoundTrip | src/filesys/log.rs:132-163 | write_head followed by read_head gives the header back. |
| FsLog.CommitIsConsistent | src/filesys/log.rs:103-118 | After every single write of commit, a set header describes copies of the sectors as they were when commit began. |
| FsLog.RecoverIsConsistent | src/filesys/log.rs:121-129 | Recovery interrupted after any write keeps this; a complete one clears the header. |
| FsLog.CrashDuringCommit | src/filesys/log.rs:103-201 | A crash after any write of commit, any number of interrupted recoveries and one complete recovery leave every sector outside the log as it was when commit began, with a clear header. |
| FsLog.CommittedSurvives | src/filesys/log.rs:103-118 | From the header write until the header is cleared the log is a second copy: whatever becomes of the logged sectors at home, recovery brings them back as they were when commit began. |
| FsLog.RecoveryIsIdempotent | src/filesys/log.rs:121-129 | For every log recovery can act on, whatever it holds: recovery broken off after any write and begun again ends on the disk an undisturbed recovery gives. |
| FsLog.AtomicOnlyForOneSector | src/filesys/log.rs:1-9 | Whatever sectors are logged: every crash, after any write home or any write of commit, with any number of interrupted recoveries after it, recovers outside the log to the state before or after the transaction exactly if the transaction has at most one sector, because sectors reach their homes before commit copies them. |
| FsLog.Log.constructor | src/filesys/log.rs:42-57 | Start-up leaves the recovered disk and an empty header. |
| FsLog.Log.LogWrite | src/filesys/log.rs:82-100 | The header keeps at most ten distinct sectors; a full one refuses even a sector it holds; otherwise the sector is in it afterwards. |
| FsLog.Log.WriteHead | src/filesys/log.rs:132-147 | The header sector is the serialised header. |
| FsLog.Log.ReadHead | src/filesys/log.rs:150-163 | As many destinations as the count says come from disk. |
| FsLog.Log.WriteLog | src/filesys/log.rs:166-182 | Each copy step is the corresponding point of commit. |
| FsLog.Log.InstallTrans | src/filesys/log.rs:185-201 | Each install step, recorded write by write. |
| FsLog.Log.Commit | src/filesys/log.rs:103-118 | The 2n + 2 device writes of a commit are exactly the points the crash argument quantifies over. |
| FsLog.Log.Recover | src/filesys/log.rs:121-129 | The device writes of recovery are exactly the points it quantifies over. |
| BufferCache.Recycled | src/filesys/bio.rs:69-88 | Turning a buffer over to another sector, with write-back if dirty, changes nothing users see. |
| BufferCache.BCache.Bread | src/filesys/bio.rs:55-92 | The buffer holds what the sector looks like and nothing looks different; the device does not change if it has all that is seen; a sector not there takes the first buffer nobody holds; it fails exactly when the sector is not cached and every buffer is held. |
| BufferCache.BCache.Brelse | src/filesys/bio.rs:95-100 | Releasing a buffer that is on disk changes nothing users see. |
| BufferCache.BCache.Bwrite | src/filesys/bio.rs:103-106 | Write-through puts the buffer in its sector on the device, changes no other sector there, and nothing users see. |
| BufferCache.BCache.Sync | src/filesys/bio.rs:109-119 | Afterwards nothing is dirty and nothing looks different. |
| BufferCache.BCache.Acquire | src/filesys/bio.rs:55-92 | With one buffer not held, bread always succeeds, one count goes up by one, and the device does not change if it has all that is seen. |
| MkDisk.SlotsPlaced | tools/mkdisk/src/main.rs:141-227 | The kernel's three-level walk finds every slot of a file where the builder put it. |
| MkDisk.PlaceInjective | tools/mkdisk/src/main.rs:141-227 | Different slots of a file are in different sectors, all inside its extent. |
| MkDisk.StoredReads | tools/mkdisk/src/main.rs:141-227 | Length, contents, kind and the absence of stray blocks of a stored file, as the kernel reads them. |
| MkDisk.ImageTree | tools/mkdisk/src/main.rs:141-383 | All files of an image together: one owner a sector, every owned sector marked. |
| MkDisk.PointerSector | tools/mkdisk/src/main.rs:178-190 | The pointer loop produces consecutive pointers and zeros. |
| MkDisk.NewInode | tools/mkdisk/src/main.rs:158-168 | The direct pointers, length and kind of a new inode. |
| MkDisk.DiskBuilder.constructor | tools/mkdisk/src/main.rs:94-107 | An empty image with sectors 0 and 1 reserved. |
| MkDisk.DiskBuilder.AllocSector | tools/mkdisk/src/main.rs:110-121 | Sectors are handed out in order. |
| MkDisk.DiskBuilder.AllocSectors | tools/mkdisk/src/main.rs:124-130 | A run of consecutive sectors. |
| MkDisk.DiskBuilder.WriteFile | tools/mkdisk/src/main.rs:141-227 | The file is stored after everything before it, through the indirect and doubly indirect range, and no earlier sector changes. |
| MkDisk.DiskBuilder.WriteRootDir | tools/mkdisk/src/main.rs:230-295 | The root directory is written with the two dots and one entry a file, with direct and indirect pointers only; within their reach it is a file like the others. |
| MkDisk.BuildBitmap | tools/mkdisk/src/main.rs:300-306 | The bitmap has exactly the used sectors set. |
| MkDisk.DiskBuilder.WriteFreeMap | tools/mkdisk/src/main.rs:298-383 | On a disk of any size the bitmap written marks every sector taken, those of the bitmap and of its indirect block included, and has direct and indirect pointers only; within their reach it is a file like the others. |
| MkDisk.DiskBuilder.ShortLayOut | tools/mkdisk/src/main.rs:264-287 | Indirect block and inode of the root directory: pointers past the indirect block are left out. |
| MkDisk.ShortReads | tools/mkdisk/src/main.rs:264-287 | Of such a file the kernel reads the first 71,680 bytes as written and zeros after them. |
| MkDisk.MapReads | tools/mkdisk/src/main.rs:298-383 | A sector is reported taken exactly if the builder took it and it is below 573,440. |
| MkDisk.MapRightIff | tools/mkdisk/src/main.rs:298-383 | The map the kernel reads marks exactly the sectors taken if and only if the builder stopped at or below sector 573,440. |
| MkDisk.BuildImage | tools/mkdisk/src/main.rs:388-447 | For inputs within the builder's limits, the image holds the inputs' files, the root directory and the free map. |
| MkDisk.Mount | src/filesys/free_map.rs:107-118 | Mounting the image: the file system is in order with all its files, the sectors below the builder's mark are taken and all others free. |
| MkDisk.DirDataLookup | tools/mkdisk/src/main.rs:230-250 | A directory written entry by entry maps each of its distinct names to its sector. |
| MkDisk.ImageRoundTrip | tools/mkdisk/src/main.rs:141-383 | For distinct short names, looking a file up in the root directory of the finished image gives its inode, and the inode's contents are the file's bytes. |
| UserHeap.InsertKeeps | user/rxv6-user/src/lib.rs:113-145 | Inserting a freed block keeps the list in address order with no touching neighbours, and covers exactly the bytes it covered plus the block's. |
| UserHeap.AllocKeeps | user/rxv6-user/src/lib.rs:42-102 | An allocation keeps the invariant: free list sorted, disjoint and merged; live blocks off each other and off free ones; free plus live bytes are the bytes obtained from sbrk. |
| UserHeap.AllocResult | user/rxv6-user/src/lib.rs:42-102 | The block has room for the payload; there is none only when no free block fits and sbrk failed, and then nothing changes. |
| UserHeap.AllocIsTight | user/rxv6-user/src/lib.rs:42-102 | A block is less than 16 bytes larger than the rounded request, which is little larger than the payload; the heap grows only if no free block fits, and then by a page or the request. |
| UserHeap.FreedIsReusable | user/rxv6-user/src/lib.rs:104-145 | A request that fits a block given back is met without sbrk. |
| UserHeap.FreeKeeps | user/rxv6-user/src/lib.rs:104-109 | Freeing keeps the invariant. |
| UserHeap.RunKeepsInv | user/rxv6-user/src/lib.rs:41-145 | Over every run of allocations and frees the invariant holds. |
| UserHeap.AllFreedIsOneBlock | user/rxv6-user/src/lib.rs:41-145 | In every run with contiguous sbrk results, once everything is freed the heap is exactly one free block. |
| UserHeap.AlignedUpToEight | user/rxv6-user/src/lib.rs:43-47 | The requested alignment is honoured for every heap and request exactly when it is at most 8: padding is reserved but the pointer is not moved. |
| UserHeap.Allocator.FreeListInsert | user/rxv6-user/src/lib.rs:113-145 | The pointer surgery on block headers produces the list with the block merged in. |
| UserHeap.Allocator.FindFit | user/rxv6-user/src/lib.rs:53-79 | The walk stops at the first block large enough. |
| UserHeap.Allocator.Carve | user/rxv6-user/src/lib.rs:56-65 | Splitting carves the request off the end of the block. |
| UserHeap.Allocator.Unlink | user/rxv6-user/src/lib.rs:66-75 | A block too small to split is taken off the list whole. |
| UserHeap.Allocator.Grow | user/rxv6-user/src/lib.rs:82-101 | A fresh region: the front is handed out and a remainder worth keeping is freed. |
| UserHeap.Allocator.Allocate | user/rxv6-user/src/lib.rs:42-102 | alloc on headers in memory is the allocation step of the model; null exactly when nothing fits and sbrk failed. |
| UserHeap.Allocator.Deallocate | user/rxv6-user/src/lib.rs:104-109 | dealloc on headers in memory is the free step of the model. |
| ShellParser.Parser.ParseList | user/tests/sh/src/main.rs:431-484 | The list loop over the token vector, which terminates on every token sequence, yields the command and the rest that the grammar functions give. |
| ShellParser.Parser.ParseAndOr | user/tests/sh/src/main.rs:486-506 | And-or lists, left associative. |
| ShellParser.Parser.ParsePipeline | user/tests/sh/src/main.rs:508-526 | Pipelines with optional negation. |
| ShellParser.Parser.ParseCommand | user/tests/sh/src/main.rs:528-543 | Dispatch on the first token. |
| ShellParser.Parser.ParseSimple | user/tests/sh/src/main.rs:545-627 | Words, assignments and redirections, the spellings of the stderr redirection included; ShellRoundTrip.SimpleReads and ShellRoundTrip.RedirectedTwice say what they give. |
| ShellParser.Parser.ParseIf | user/tests/sh/src/main.rs:629-665 | Conditionals with any number of elif branches. |
| ShellParser.Parser.ParseWhile | user/tests/sh/src/main.rs:667-678 | while loops. |
| ShellParser.Parser.ParseUntil | user/tests/sh/src/main.rs:680-691 | until loops. |
| ShellParser.Parser.ParseFor | user/tests/sh/src/main.rs:693-723 | for loops, with and without a word list. |
| ShellParser.Parser.Take | user/tests/sh/src/main.rs:408-416 | Consumes one token, or none at the end. |
| ShellParser.Parser.ExpectToken | user/tests/sh/src/main.rs:418-425 | Consumes the token exactly when it is next. |
| ShellParser.Parser.SkipLines | user/tests/sh/src/main.rs:427-429 | Consumes all newlines in front. |
| ShellRoundTrip.AssignmentWordReads | user/tests/sh/src/main.rs:583-594 | A name, an equals sign and any value read back as that assignment. |
| ShellRoundTrip.SimpleReads | user/tests/sh/src/main.rs:545-627 | A simple command reads back as itself, with its redirections before or after its words, in all four spellings of the stderr redirection, and whether a separator, a keyword or the end of the tokens follows. |
| ShellRoundTrip.RedirectedTwice | user/tests/sh/src/main.rs:545-627 | Of two redirections of the same stream the last counts; one without a file name takes the next token away and changes nothing. |
| ShellRoundTrip.CommandReads | user/tests/sh/src/main.rs:528-724 | Any well-formed compound or simple command reads back as itself, up to what follows. |
| ShellRoundTrip.AndOrReads | user/tests/sh/src/main.rs:486-506 | What is rendered in front becomes the left operand. |
| ShellRoundTrip.ListReads | user/tests/sh/src/main.rs:431-484 | A list with background items, its last item with or without a separator, reads back as itself, up to the keyword after it or the end of the tokens. |
| ShellRoundTrip.RoundTrip | user/tests/sh/src/main.rs:399-724 | Parsing any rendering of any well-formed tree, nested to any depth and in any style, returns the tree and uses every token. |
| ShellRoundTrip.RenderingsDiffer | user/tests/sh/src/main.rs:399-724 | Commands that are written alike, in whatever styles, are the same command. |
| ShellRoundTrip.PlainLine | user/tests/sh/src/main.rs:1179-1180 | A command line without a separator at its end is read whole. |
| ShellRoundTrip.FirstLineOnly | user/tests/sh/src/main.rs:431-475 | Of any list of and-or commands, each ended by a semicolon, an ampersand or a newline and then any blank lines, exactly those up to and including the first ended by a newline are parsed; the rest is left unread. |
| ShellRoundTrip.NewlinesSeparate | user/tests/sh/src/main.rs:464-472 | Everything is parsed exactly if no command but the last is ended by a newline. |
| ShellRoundTrip.BodyFirstLineOnly | user/tests/sh/src/main.rs:528-724 | An if, while, until, for or subshell with a body of any such list is read whole if the body is one line; otherwise it ends after the first, loses elif and else branches, and the rest and its closing keyword are left over. |
| ShellRoundTrip.BodiesOnOneLine | user/tests/sh/src/main.rs:629-724 | A construct is read whole exactly if no command of its body but the last is ended by a newline. |
| VmFrame.SwapRemovedOk | src/vm/frame.rs:230-246 | swap_remove with one index repaired keeps the index the exact inverse, and removes exactly that frame. |
| VmFrame.EveryFrameIsVisited | src/vm/frame.rs:94-101 | Over as many ticks as there are frames the hand points at each of them. |
| VmPager.Vm.RegisterFrame | src/vm/frame.rs:44-60 | The new frame is entered last, and the index stays the inverse of the table. |
| VmPager.Vm.FreeFrame | src/vm/frame.rs:230-246 | Exactly the frame of that page leaves, by swap_remove, and the index stays the inverse. |
| VmPager.Vm.PinUpage | src/vm/frame.rs:250-259 | Only the first frame of that page has its pin changed. |
| VmPager.Vm.RemoveFrame | src/vm/frame.rs:188-202 | Removal with shifted indices entered again keeps the index the inverse. |
| VmPager.Vm.AllocSlot | src/vm/swap.rs:79-91 | The first free slot, or none when all are used. |
| VmPager.Vm.SwapOut | src/vm/swap.rs:34-54 | The eight sectors of a free slot hold the page and no other sector changes. |
| VmPager.Vm.SwapIn | src/vm/swap.rs:58-77 | The page is what the slot held, and the slot is free. |
| VmPage.WrittenSlot | src/vm/swap.rs:34-77 | Reading back a written slot gives the page, and every other slot reads as before. |
| VmPage.EvictedOk | src/vm/frame.rs:122-202 | Eviction keeps the tables consistent: resident pages own their frames, and every slot named is reserved and named once. |
| VmPage.EvictionKeepsBytes | src/vm/frame.rs:122-186 | Every other page keeps its bytes; the evicted one keeps its own exactly when it was dirty or held what a reload gives. |
| VmPage.ReloadedIsBacking | src/vm/frame.rs:138-181 | For the two kinds of page the kernel makes, what a clean eviction reloads is what an untouched page holds. |
| VmPage.TwoRotations | src/vm/frame.rs:94-120 | After two rotations without an eviction every frame is stuck. |
| VmPager.Vm.EvictFrame | src/vm/frame.rs:88-212 | Never a pinned frame; without wrap of the counter the victim is the first frame from the hand on that can be evicted and is not accessed, or, if there is none, the first that can be evicted, and it fails exactly when every frame is pinned, has no page directory, or is dirty with swap full. |
| VmPager.Vm.AllocFrame | src/vm/frame.rs:63-80 | From any consistent state: a zeroed page entered in the table; pages out of memory keep entry and bytes, pages in memory keep bytes if dirty or equal to a reload; what happened is a run of the pager; without wrap of the counter it succeeds exactly if a page is free or some frame can be evicted. |
| VmPager.Vm.LoadPage | src/vm/page.rs:105-153 | From any consistent state, pages reloaded clean before included, and whether it succeeds or not: the tables stay consistent, every page that was out of memory, dirty or equal to a reload keeps its bytes, and all that happened is a run of the pager; a page in swap always has its page table, so mapping it never fails; on success the page is in memory, clean, on failure its entry is as it was; it succeeds exactly if the page is in memory, or its page table is there or can be made and a page is free or some frame can be evicted. |
| VmLoader.FindSpan | src/userprog/process.rs:1248-1253 | The lowest address, the first lowest segment's file offset, and the highest ends in memory and of file bytes. |
| VmLoader.MakeEntries | src/userprog/process.rs:1255-1301 | Exactly the pages from the lowest address to the highest end get an entry, each for the part of it that the file backs. |
| VmLoader.PagesAreProgram | src/userprog/process.rs:1255-1301 | The pages side by side are the program: the byte at an address is the file's, at the base offset plus the distance from the base, up to the end of file bytes, and zero elsewhere. |
| VmLoader.ProgramInEveryRun | src/vm/page.rs:105-153 | In every run from the loader's entries, a page nobody has written holds the program's bytes, in memory or out of it, however often it is evicted and reloaded. |
| VmLoader.SegmentRightIff | src/userprog/process.rs:1248-1301 | A segment has the bytes its header names, for every file, exactly if its offset and address differ by as much as those of the lowest segment. |
| VmLoader.RestZeroIff | src/userprog/process.rs:1248-1301 | The part of a segment past its file bytes is zero, for every file, exactly if it is empty or past the file bytes of all segments. |
| VmLoader.SegmentsMisplaced | src/userprog/process.rs:1248-1301 | Two programs whose segments are not loaded as their headers say. |
| VmPager.Vm.Destroy | src/vm/page.rs:92-99 | The thread's entries are gone, exactly the slots they name are freed, and the tables stay consistent. |
| VmPager.Vm.SetPage | src/userprog/pagedir.rs:84-98 | The mapping is entered clean; it fails exactly if the page table is missing and no page is left for one, and then changes nothing. |
| VmPager.Vm.FreeMapped | src/userprog/pagedir.rs:46-53 | One mapped page of a thread without entries: its mapping and exactly its frame go, and the tables stay consistent. |
| VmPager.Vm.ExitThread | src/userprog/process.rs:1095-1117 | At exit nothing of the thread is left, no entry, slot, mapping, frame or page table, and nothing of any other thread is touched; the tables stay consistent, and it is a run of the pager. |
| VmLife.LifeKeepsTables | src/userprog/process.rs:1280-1318 | Threads, entries, mappings and page tables that come and go keep the tables consistent: every mapping has a frame of its own, every slot named is reserved and named once, every page in swap has its page table. |
| VmLife.LifeBytes | src/userprog/pagedir.rs:33-61 | As long as its entry stands a page keeps its bytes, whatever comes and goes besides. |
| Pipe.WriteKeeps | src/pipe.rs:51-84 | A writer accepts exactly the bytes it reports, in order and as many as fit; with some left it waits exactly if a reader is left, and otherwise gives up. |
| Pipe.ReadKeeps | src/pipe.rs:88-108 | A reader takes the next bytes in order, as many as there are and as it has room for; it waits exactly if there are none and a writer is left; a read with room that returns nothing means the last writer is gone and everything accepted was received. |
| Pipe.RunKeeps | src/pipe.rs:51-148 | In every interleaving, bytes received followed by bytes buffered are the bytes accepted, and at most 512 are buffered, across wrap-around of the 32-bit counters. |
| Pipe.RefsBalance | src/pipe.rs:111-148 | In every interleaving each end has one reference plus those duplicated minus those dropped. |
| Pipe.EmptyReadIsEof | src/pipe.rs:88-108 | In every interleaving, an empty read is the end of the stream. |
| Pipe.WriteGivesUp | src/pipe.rs:51-84 | In every interleaving, a write that ends has put in all its bytes or lost its last reader. |
| Pipe.PipeBuffer.Write | src/pipe.rs:51-84 | The in-place batch copy is the writer's section. |
| Pipe.PipeBuffer.Read | src/pipe.rs:88-108 | The in-place batch copy is the reader's section, and nothing past it in the buffer changes. |
| Pipe.PipeBuffer.DropReader | src/pipe.rs:125-135 | The end closes with its last reference, and the result says whether both ends are closed. |
| Pipe.PipeBuffer.DropWriter | src/pipe.rs:138-148 | The same for the write end. |
| Descriptors.ReferencedCounts | src/pipe.rs:111-122 | Adding a descriptor and a reference together keeps counts equal to descriptors. |
| Descriptors.DroppedCounts | src/userprog/process.rs:377-396 | Removing a descriptor and dropping a reference keeps counts equal to descriptors, and destroys the pipe exactly when none is left. |
| Descriptors.NamedIsRegistered | src/userprog/process.rs:315-396 | Every pipe a descriptor names is registered. |
| Descriptors.Kernel.AllocFd | src/userprog/process.rs:267-277 | The lowest free descriptor, and one more descriptor of that kind. |
| Descriptors.Kernel.CreatePipe | src/userprog/syscall.rs:341-356 | A new pipe with one descriptor and one reference an end. |
| Descriptors.Kernel.Dup | src/userprog/process.rs:336-372 | One more descriptor and one more reference, or nothing changes. |
| Descriptors.Kernel.Fork | src/userprog/process.rs:687-732 | The child's table copies the parent's, with a reference a copied end. |
| Descriptors.Kernel.Close | src/userprog/process.rs:315-324 | The slot is emptied and its reference dropped; false exactly when it was not open. |
| Descriptors.Kernel.CloseAll | src/userprog/process.rs:327-333 | Every slot of the process is emptied, and counts still equal descriptors. |
| Semaphore.ValueIsBalance | src/sync/semaphore.rs:32-75 | In every interleaving the value is the initial one plus the ups counted minus the downs completed. |
| Semaphore.CallsBalance | src/sync/semaphore.rs:32-75 | In every interleaving no call is counted twice or left out: the value is the initial one, plus the ups called and not still in the middle, minus the downs called, and successful tries, that are not still waiting. |
| Semaphore.NoWakeUpLost | src/sync/semaphore.rs:32-75 | In every run in which no woken waiter outranks its signaller, while threads are queued at least as many are woken as the value says. |
| Semaphore.WakeUpLost | src/thread/mod.rs:314-334 | With a waiter of higher priority than the signaller there is a run that ends with a thread queued and fewer threads woken than the value says. |
| Semaphore.NeverLostIffEqual | src/sync/semaphore.rs:57-75 | No interleaving loses a wake-up exactly when all threads have the same priority. |
| Semaphore.Sema.DownSection | src/sync/semaphore.rs:32-41 | One pass of down's loop: take a unit or queue. |
| Semaphore.Sema.TryDownNow | src/sync/semaphore.rs:44-54 | Takes a unit exactly when there is one. |
| Semaphore.Sema.RemoveBest | src/sync/semaphore.rs:60-70 | The first waiter of highest priority leaves the queue. |
| Semaphore.Sema.UpSection | src/sync/semaphore.rs:57-75 | What up does before it may give up the processor, and when it does. |
| KernelHeap.AlignUpIs | src/mem/malloc.rs:59-61 | The least multiple of the alignment not below the value, within one alignment of it. |
| KernelHeap.RequestIsGood | src/mem/malloc.rs:77-82 | The rounded request has room for the payload and a header and is a multiple of an alignment the caller's divides. |
| KernelHeap.KAllocKeeps | src/mem/malloc.rs:67-130 | A small allocation returns an aligned block of the rounded size inside the heap that overlaps no live and no free block, and fails exactly when no free block fits. |
| KernelHeap.KFreeKeeps | src/mem/malloc.rs:132-158 | Freeing keeps all blocks inside the heap and apart. |
| KernelHeap.FreedIsReused | src/mem/malloc.rs:132-158 | The next request that a block given back fits and is aligned for gets that block. |
| KernelHeap.FreeAddsBytes | src/mem/malloc.rs:152-156 | The free bytes after a dealloc are those before and the block's. |
| KernelHeap.AllocTakesBytes | src/mem/malloc.rs:91-126 | What an allocation takes off the list are the block, the padding in front of it and less than a header after it; every other free byte stays free. |
| KernelHeap.KRunKeeps | src/mem/malloc.rs:66-158 | Over every run of small allocations and frees this holds. |
| KernelHeap.KRunAccounts | src/mem/malloc.rs:66-158 | Over every run free and live bytes together are at most the heap, and less than it by at most alignment plus header size for each allocation. |
| KernelHeap.KernelAllocator.Allocate | src/mem/malloc.rs:67-130 | The first-fit walk and relinking on headers in memory is the allocation step of the model. |
| KernelHeap.KernelAllocator.Deallocate | src/mem/malloc.rs:132-158 | Prepending a header in memory is the free step of the model, after which the bytes are free and can be had again (KernelHeap.FreeAddsBytes, KernelHeap.FreedIsReused). |
| KernelBitmap.BitBuffer.Set | src/mem/bitmap.rs:50-61 | Exactly that bit changes. |
| KernelBitmap.BitBuffer.Test | src/mem/bitmap.rs:64-70 | The bit's value. |
| KernelBitmap.BitBuffer.SetMultiple | src/mem/bitmap.rs:73-77 | Exactly those bits change. |
| KernelBitmap.BitBuffer.ScanAndFlip | src/mem/bitmap.rs:93-121 | The least start at or after the given one with that many equal bits, exactly those flipped, despite skipping past failed runs; none exactly when there is no such start. |
| ChessBoard.Board.Copy | user/tests/chess/src/main.rs:555-555 | A copy of the board is the same position in its own squares. |
| ChessRules.KingsTracked | user/tests/chess/src/main.rs:411-496 | After a move that takes no king the tracked king squares still hold the only two kings. |
| ChessEval.MirrorSq | user/tests/chess/src/main.rs:654-659 | The same file, seen from the other side of the board. |
| ChessEngine.GenPieceMoves | user/tests/chess/src/main.rs:163-194 | The moves appended for whatever stands on a square; by ChessLaws.PieceMovesIff exactly those its laws allow. |
| ChessLaws.PieceMovesIff | user/tests/chess/src/main.rs:163-194 | The moves of one piece are exactly those the laws allow it. |
| ChessSearch.TryMove | user/tests/chess/src/main.rs:557-566 | Make, test for check, unmake: the board is as before and the answer is whether the move is legal. |
| ChessSearch.QuiesceTakes | user/tests/chess/src/main.rs:694-710 | The capture loop with cut-off returns the quiescence value clamped to the window. |
| ChessSearch.SearchMove | user/tests/chess/src/main.rs:740-744 | One child searched in the negated window: board unchanged, value exact inside the window. |
| ChessSearch.OrderedBest | user/tests/chess/src/main.rs:726-753 | Reordering the moves does not change the best value. |
| NumberTheory.Euclid | user/tests/factor/src/main.rs:156-164 | A prime that divides a product and not its first factor divides the second. |
| NumberTheory.Pigeonhole | user/tests/factor/src/main.rs:66-75 | Distinct values from 1 to k are at most k many. |
| Factor.TrialStep | user/tests/factor/src/main.rs:97-103 | After a trial divisor, the cofactor has no divisor up to the next. |
| Factor.DivideOutAll | user/tests/factor/src/main.rs:119-124 | Dividing out the recursive factors keeps product and cofactor in balance and shrinks the cofactor. |
| Factor.InsertAt | user/tests/factor/src/main.rs:128-131 | One round of insertion sort extends the sorted prefix by one and permutes. |
| FsInode.FileSystem.PrepareBlock | src/filesys/inode.rs:360-376 | The block to write exists afterwards exactly if its missing sectors are free; no other file changes. |
| FsInode.FileSystem.WriteChunks | src/filesys/inode.rs:349-389 | The chunk loop writes a prefix of the buffer, all of it exactly if the sectors the touched blocks miss are free. |
| FsInode.FileSystem.ReadChunks | src/filesys/inode.rs:289-319 | The chunk loop copies the stored slice into the buffer. |
| FsInode.FileSystem.FreeBlocks | src/filesys/inode.rs:228-250 | Exactly the data and pointer sectors of the inode are freed. |
| FsInode.FileSystem.CreateBlock | src/filesys/inode.rs:118-129 | Taking a sector for a block of the new inode, recorded or not, changes no other block of it and no other file; it fails exactly when no sector is free. |
| FsDirectory.AddedUnique | src/filesys/directory.rs:118-156 | Adding a missing name keeps the names distinct. |
| FsDirectory.PutEntry | src/filesys/directory.rs:141-155 | The bytes reported are overwritten in the directory file, all of them exactly if writes are not denied and the missing sectors are free. |
| FsDirectory.MayRemove | src/filesys/directory.rs:173-183 | A target may go exactly when it is not a directory or only has the two dots. |
| FsLog.InterruptedIsConsistent | src/filesys/log.rs:121-129 | Any number of interrupted recoveries keeps the log consistent with the disk commit began on. |
| BufferCache.WrittenThrough | src/filesys/bio.rs:103-106 | Writing a buffer to its sector keeps the cache coherent and every sector looking the same. |
| BufferCache.BCache.constructor | src/filesys/bio.rs:37-51 | No buffer is held and every sector looks as it is on disk. |
| MkDisk.DiskBuilder.LayOut | tools/mkdisk/src/main.rs:141-214 | Data, pointer sectors and inode of one file are where the layout says, and sectors below are untouched. |
| MkDisk.WriteFiles | tools/mkdisk/src/main.rs:404-427 | All inputs are stored one after the other, and their names recorded with their inodes. |
| UserHeap.Allocator.KeepRest | user/rxv6-user/src/lib.rs:91-99 | The remainder of a fresh region goes to the free list. |
| ShellParser.Parser.TakeWords | user/tests/sh/src/main.rs:701-712 | Words up to the first token that is not one. |
| ShellRoundTrip.PipelineReads | user/tests/sh/src/main.rs:508-526 | Pipelines of any length, negated or not, read back as themselves. |
| ShellRoundTrip.BodyReads | user/tests/sh/src/main.rs:528-724 | Of any construct: whatever its body parses to, the construct is whole with that body if its close follows, and ends with that body where the close is missing. |
| ShellParser.CommandBranches | user/tests/sh/src/main.rs:528-543 | The production each first token leads to. |
| VmFrame.PushedIndex | src/vm/frame.rs:44-60 | Pushing a frame and entering its position keeps the index the inverse. |
| VmFrame.RemovedReindexed | src/vm/frame.rs:188-202 | After a removal only the positions from the hand on have to be entered again. |
| VmPage.MappedOk | src/vm/page.rs:105-153 | Mapping a loaded page keeps the tables consistent. |
| VmPage.MappedSameBytes | src/vm/page.rs:105-153 | Mapping a page loaded with its own bytes changes no page's bytes. |
| VmPager.Vm.TryEvict | src/vm/frame.rs:122-206 | The frame under the hand is evicted, or, exactly when it is dirty and swap is full, nothing changes. |
| VmPager.Vm.Fetch | src/vm/page.rs:106-142 | The frame holds what the page's location says it should: the file's bytes from the entry's offset, copied to the entry's place in the page, what the slot held, or zeros. |
| Pipe.StepKeeps | src/pipe.rs:51-148 | Every step of every thread keeps the pipe invariant. |
| Pipe.PipeBuffer.constructor | src/pipe.rs:33-46 | An empty ring with one reference an end. |
| Descriptors.Kernel.CloseKind | src/userprog/process.rs:377-396 | Dropping a reference destroys the pipe with its last one. |
| Descriptors.Kernel.AddReference | src/userprog/process.rs:355-368 | A duplicated pipe end gets one more reference. |
| Semaphore.StepKeeps | src/sync/semaphore.rs:32-75 | Every step keeps the balance of value, ups and downs. |
| Semaphore.Best | src/sync/semaphore.rs:60-69 | The first among the waiters of highest priority. |
| KernelHeap.KernelAllocator.constructor | src/mem/malloc.rs:38-56 | One free block, the whole heap. |
| KernelHeap.KernelAllocator.FindFit | src/mem/malloc.rs:91-126 | The first block with room for padding and request. |
| KernelBitmap.BitBuffer.RunLength | src/mem/bitmap.rs:108-112 | How many bits from a position on have the value, up to the count asked for. |
| VmRun.RunKeepsTables | src/vm/frame.rs:44-206 | In every run of evictions, reloads, user writes, accessed bits and threads, entries and mappings that come and go, every slot an entry names is reserved and named by no other entry, every mapped page has a frame of its own, and every page in memory or in swap has its page table. |
| VmRun.RunBytes | src/vm/frame.rs:122-186 | In every run, as long as its entry stands, a page holds the last bytes written to it, or, once it was thrown out clean since, what a reload gives. |
| VmRun.LostIff | src/vm/frame.rs:138-181 | In every run, as long as the entry stands, the bytes last written are lost exactly if the page was thrown out clean since and they differ from a reload. |
| VmRun.LoadThenEvict | src/vm/page.rs:128-139 | A page reloaded and later evicted, with anything in between but the end of its entry, keeps its bytes at that eviction exactly if it was written in between, did not come from swap, or its slot held what a reload gives. |
| VmRun.RunKeepsHome | src/vm/frame.rs:168-181 | In every run every page out of memory and out of swap stays where eviction would put it, as entries are made. |
| VmRun.ReachedFromBoot | src/vm/frame.rs:44-206 | Every state a run reaches from a pager with no threads and no slot taken is consistent, with every page out of memory where eviction would put it. |
| VmRun.PageLost | src/vm/page.rs:128-139 | A stack page with any bytes but zeros, written, evicted, reloaded and evicted again, comes back as zeros. |
| VmPage.EvictedKeeps | src/vm/frame.rs:122-186 | An eviction keeps the bytes of every page that is out of memory, dirty or equal to a reload. |
| FsLog.InterruptedRecovers | src/filesys/log.rs:121-129 | After any number of interrupted recoveries of any such log, a complete one still ends on that disk. |
| BufferCache.OnlyTheLast | src/filesys/bio.rs:69-88 | From an empty cache, with each buffer given back before the next request, only the last sector asked for is cached. |
| BufferCache.LruOnlyForTheLast | src/filesys/bio.rs:1-4 | For each sector: the cache answers as replacement of the least recently used sector would exactly for the sector asked for last and for sectors that replacement had dropped too. |
| BufferCache.LruOnlyForOneSector | src/filesys/bio.rs:1-4 | For each history of requests: the cache keeps what replacement of the least recently used sector would keep exactly if the history asks for one sector only. |
| BufferCache.MostRecentThrownOut | src/filesys/bio.rs:69-88 | Two requests are enough to throw out the sector used just before. |
| BufferCache.BCache.Release | src/filesys/bio.rs:95-100 | The count goes back, and nothing looks different. |
| BufferCache.BCache.Overwrite | src/filesys/bio.rs:103-106 | A held sector overwritten and written through: that sector, and no other, has the new bytes, seen and on the device. |
| FsInode.FileSystem.ReadyMeans | src/filesys/bio.rs:55-100 | Between operations every valid buffer equals its sector on the device, the device is what the cache shows and what all results are stated about, and each buffer is held as often as before the operation, which with one buffer free means no operation runs out of buffers. |
| FsInode.FileSystem.LookUp | src/filesys/inode.rs:420-459 | The three-level lookup through the cache, one buffer at a time, finds what the disk says. |
| FsInode.FileSystem.EnsureInner | src/filesys/inode.rs:507-531 | The inner table is there or no sector was left; the outer sector is held while one is looked for and given back either way. |
| FsInode.FileSystem.FreeInners | src/filesys/inode.rs:239-250 | All inner tables are released while the outer sector is held, and the buffer is given back. |
| FsInode.FileSystem.Get | src/filesys/inode.rs:81-93 | A sector read through the cache is the sector on the device; device and counts are as before. |
| FsInode.FileSystem.Put | src/filesys/inode.rs:96-107 | A sector written through the cache changes that sector of the device and no other, the cache shows the device again, and counts are as before. |
| FsCost.NeedAfter | src/filesys/inode.rs:360-376 | Once the way to a block is there, the blocks after it miss exactly that much less. |
| FsCost.BudgetNext | src/filesys/inode.rs:354-389 | Each round of the write loop keeps what is free minus what is still missing, or shows that there was not enough at the start. |
| FsDirectory.AddHonest | src/filesys/directory.rs:118-156 | A result of add is true of what it did exactly if the entry can be written or no slot was unused; a false result always is. |
| FsReports.AddDenied | src/filesys/directory.rs:141-147 | On a small disk: writes to a directory with an unused slot are denied, add reports true and adds nothing. |
| FsReports.AddFull | src/filesys/directory.rs:141-147 | On a full small disk with a hole in the directory, add reports true and adds nothing. |
| FsReports.RemoveDenied | src/filesys/directory.rs:184-190 | On a small disk: remove reports true and the name is still there. |
| MkDisk.BuildAndRead | tools/mkdisk/src/main.rs:388-447 | An image built, mounted, searched by name through the directory code and read through the inode code gives the bytes the builder was given, and a sector taken from its free map belongs to no file. |
| PipeWaiting.EndReachesReaders | src/pipe.rs:138-148 | After the last write end is closed with no write under way, all blocked readers learn of it exactly if at most one waits: one is woken, and no other ever is. |
| PipeWaiting.EndReachesWriters | src/pipe.rs:125-135 | The same for writers blocked on a full pipe when the last read end is closed. |
| PipeWaiting.OneReaderLeft | src/pipe.rs:88-148 | From a new pipe: two readers find it empty, its only write end is closed, and one of them is left waiting. |
| Pipe.PipeBuffer.AddReader | src/pipe.rs:111-115 | One more reference to the read end, and nothing else. |
| Pipe.PipeBuffer.AddWriter | src/pipe.rs:118-122 | One more reference to the write end, and nothing else. |
| Descriptors.Kernel.NewProcess | src/userprog/process.rs:258-264 | A process with the three console descriptors, and counts still equal to descriptors. |

## Left out

- Hardware, boot, interrupts, context switch, system-call dispatch, user pointers and page-directory layout: outside this model; the disk is an array of sectors with atomic writes.
- Process wait, exit and exec ordering, fork's copying of pages, priority donation: not part of the cores above.
- Shell tokenizer, expansion and executor: the model starts from tokens; words are sequences of characters.
- Chess node counting, printing and input: user interface.
- ChessSearch.Search: depths stay up to 58000, beyond which mate-distance scores would leave the root window; what is said about mates is for depths up to 13800, beyond which mate scores and evaluations overlap.
- ChessLaws.MovesAreLawful: that no legal position has more than 256 moves is not stated; the exact set is stated of the list before it is cut.
- VmLoader.MakeEntries: reading and checking the headers is left to the caller, and addresses do not wrap at 32 bits.
- Factor.ExtractFactors: inputs are below 2^63, as the program's own parser of signed numbers gives them.
- Factor.IsPrime: that the seven bases reject every 64-bit composite is not stated; it rests on an external computation.
- FsInode.FileSystem.WriteAt: offsets stay below the end of the doubly indirect range, and one operation runs at a time.
- FsInode.FileSystem.Create: sectors taken for blocks beyond the direct ones are not linked by the code and stay taken; ownership is stated as never twice and never while free, not as never leaked.
- BufferCache.BCache: binvalidate, which nothing calls, and the lock around the scan are not modelled.
- Symbolic links, readdir, reopen and writing the free map back to its file: not modelled.
- FsDirectory.Add: names are byte strings without a zero byte, and the directory's names are distinct to begin with, as add and remove keep them; one more entry stays within the largest file.
- FsDirectory.IsEmpty: every name counts as valid UTF-8.
- FsLog.Log: begin and end of operations are not modelled; nothing else in the kernel calls the log. A header on disk naming more than ten sectors or sectors off the disk is not recovered by the model.
- MkDisk.DiskBuilder: the flat byte vector is modelled as sectors; a file beyond the doubly indirect range or a full image, where the builder stops, is excluded.
- MkDisk.BuildImage: the end-to-end statement is for root directories and free maps within the reach of their indirect block (3,584 entries, 573,440 sectors); beyond it the builder goes on, and MkDisk.ShortReads and MkDisk.MapRightIff say what is read back. Taking a name from a path, reading input files and the size in megabytes are left to the caller, which supplies names, bytes and a sector count.
- UserHeap.Allocator.Allocate: sbrk's result is a parameter; a successful call is taken to give as many bytes as asked for, which the cast to a signed size does not guarantee for requests from 2^31 on.
- KernelHeap.KernelAllocator.Allocate: requests of a page or more go to the page allocator and are not modelled; padding and remainders too small for a header are lost by the code, and how much of them is bounded, not recovered.
- VmRun.Step: fork and exec are not steps of a run; fork copies page tables and marks pages swapped out in the parent as in memory in the child, and exec holds two frames for one page while it replaces the address space.
- VmLife.LifeStep: munmap's write-back of dirty pages to the file is not modelled.
- VmRun.PageLost: mapped-file pages are in the page types but nothing makes one, so nothing is stated about them.
- VmPager.Vm: writable bits, the page allocator and the legacy fault path for threads without a supplemental page table are not modelled; whether a free page is available, for a frame or for a page table, is a parameter.
- VmPager.Vm.PinUpage: pin and unpin are one method with a flag.
- Pipe.PipeBuffer.Write: the signal sent to a writer without readers is not modelled; waiting ends the section, and who is woken is treated in PipeWaiting, where a signal may pick any waiter.
- Descriptors.Kernel: whether a file can be opened again is a parameter; pipe numbers do not wrap.
- Semaphore.Sema: the ready list and the choice of the next thread are not modelled; any woken thread may resume at any time.
