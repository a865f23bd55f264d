# PokoinPoS: a verified model

PokoinPoS is a proof-of-stake node: a block tree with a longest-branch fork choice, a replicated
ledger with transfers, mints, tokens and a constant-product exchange, a mempool, chain
synchronisation, gossip, an EVM state adapter and raw RSA signatures. This project models those parts
in Dafny, in the form the node has them (classes updated in place, loops over maps in any order, pure
arithmetic), and proves what they promise over every input, every delivery order and every run.

`dafny verify dfyconfig.toml` checks the whole project.

## What is proved

- **Convergence.** Two nodes with one genesis block that are handed the same blocks, in any two
  orders that put parents before children, accept the same blocks and end with the same depths, best
  leaf, canonical chain and replayed ledger (`Convergence.Converges`). The accepted blocks are
  characterised without mentioning an order (`Convergence.StoreIsGood`). The block hash leaves the
  metadata out, so the premise that equal hashes mean equal blocks is needed:
  two acceptable blocks with one header, delivered in both orders to any store, leave the same tree
  exactly when they are the same block (`Convergence.SameHeaderDiverges`), and on top of the best leaf
  they always end in different canonical chains (`Convergence.TipTwinsFork`). Every acceptable block has
  such a twin for every other spelling of its transactions (`Convergence.TwinAccepted`); an instance with
  the metadata `""` and `"[]"` is `Convergence.TwinsDiverge`.
- **Acceptance.** Whatever a node stores besides the genesis is signed, has a body of at most 16 transactions that
  all apply in turn, and carries the draw that was due for its seed, slot, key and proof: no block can be given
  another draw (`Acceptance.StoredIsProper`, `Acceptance.AlteredDrawRefused`, `Acceptance.AcceptedWins`).
- **Replay equals validation.** Replay registers the miner before a block's transactions, validation
  after; the ledgers are equal all the same, and replay rejects nothing
  (`Convergence.StoredBranchReplays`).
- **Synchronisation.** Whichever of the three ways a response is installed, an honest suffix leaves
  exactly the sender's chain (`Sync.HonestInstallsChain`), and it is installed exactly when it shares enough with
  the receiver's (`Sync.HonestInstallsIff`). A whole exchange catches up exactly when the
  receiver is at the genesis or shares the first block after it (`Sync.ExchangeCatchesUp`). The genesis
  is fixed once a block was accepted, and heights never fall as long as responses carry signed blocks
  (`Peers.GenesisFixed`, `Peers.HeightMonotone`); installing does not check signatures,
  `Sync.UnsignedOverlapShortens` gives the response that shortens a chain, and `Peers.SyncHeight` says
  exactly which responses do. Over every run, adoptions included, a node mines under the settings its
  blocks are validated with (`Peers.SettingsFollowGenesis`).
- **Ledger.** A rejected transaction of any kind leaves no trace; balances move by double-entry
  postings; the supply of every asset over balances and reserves is accounted for along every chain;
  nothing goes negative; nonces are consecutive (`LedgerObject.Ledger.Transaction`,
  `Postings.ApplyPosts`, `ChainLaws.ChainConserves`, `ChainLaws.ChainNonNegative`,
  `ChainLaws.ChainNonces`). Along every chain each balance is known to the unit, rewards included, and so are the
  validators (`ChainPostings.ChainPosts`, `ChainPostings.ChainValidators`). Every accepted transaction was signed,
  the signature covers all that matters, and a balance falls only at the hand of its owner or of a registered
  operator who debits it (`Authority.AppliedIsSigned`, `Authority.SignedDecidesEffect`,
  `ChainPostings.ChainFallIsAuthorised`). A swap credits whatever asset its transaction names:
  `Conservation.SwapConservesIffNamed` says exactly when that conserves, and
  `Conservation.MisnamedSwapMakesGold` gives a swap that does not. Identifiers of applied transactions are
  recorded and never looked up: what carries a nonce takes effect once, a native transfer as often as the
  balance covers it, a mint any number of times (`Replays.NonceTakesEffectOnce`, `Replays.TransferRepeats`,
  `Replays.MintRepeats`).
- **Exchange.** A quote is the largest payout that keeps the reserve product for the input less the fee,
  rounded as coded (`Amm.QuoteIsLargest`). Splitting an order into any number of swaps never pays more; the reserve product
  strictly grows; no run of swaps drains one side for free. Pools whose asset names hold an underscore or
  a slash can never be reached again, under any name (`Text.PoolReachable`). An identifier determines the
  pair of assets exactly when it splits in one place only (`Text.PoolIDDeterminesPair`): always for names
  without a dash, not for `A-B`, `C` and `A`, `B-C`.
- **Lottery.** Ticket caps hold for registered validators and not for others, nor where nothing is
  registered; hardness stays in its bounds. The miner's precheck keeps every winning draw exactly when its
  64-bit threshold is at least the exact one, as far as draws reach (`Genesis.PrecheckKeepsWinners`). With
  defaults in the settings and no wrap-around that is always so; `Genesis.PrecheckWraps` is a winner turned
  away with every default in place, `Genesis.PrecheckNeedsDefaults` one turned away without them.
- **Mempool.** Pruning ends after at most one pass more than there are transactions, keeps a list
  that applies in order and evicts only what does not apply after it. What an honest miner's node builds
  is refused by it for no reason but the lottery (`Mining.MinedAcceptedIffWins`).
- **Mining against validation.** `MineOneSlot` weighs a draw by the miner's committed balance, `AddBlock` by its
  lottery tickets. `Mining.MinedDrawsAccepted` says exactly when every draw the node mines is accepted by its own
  validation, `Mining.AcceptableDrawsMined` exactly when every acceptable draw is mined. For a registered miner
  the first comes down to a registered total of at most 970,000 (`Mining.RegisteredMiner`), and the default
  genesis is beyond it: `Mining.DefaultGenesisRefuses` is a draw that passes both checks of any of the ten
  holders and is refused by the holder's own node. A comment in `AddBlock` and `docs/node-endpoints.md` (line 597)
  promise that a key suffices to validate. Validation keeps the promise (`Lottery.EveryKeyHasTickets`), mining
  does not: `Mining.NoBalanceNeverMines` is a block of a node without balance that would be accepted and is never
  mined in any slot. The hardness is the same in both places except for newcomers under a higher base hardness
  (`Mempool.MinerHardnessAgrees`, `Mining.NewcomerHardnessDiffers`).
- **Finality.** Over every run with signed responses the committed chain grows by extension only, exactly as
  long as no event replaces the genesis or takes more than the finality depth off the best chain
  (`Finality.CommittedGrows`, `Finality.GrowingIsShallow`).
- **Gossip.** Every flood ends, no link carries the transaction twice, and after a finished flood every
  peer connected by peers that refused no delivery has the transaction in its mempool unless it evicted it
  meanwhile. Only a pool transaction, which is tried on the best ledger first, is ever refused.
- **EVM adapter.** Reverting restores accounts, storage and the snapshot stack, although storage maps
  are shared references written in place; in every run a number stands for the last snapshot that returned it
  (`EvmState.RevertRestoresLast`).
- **RSA.** A signature verifies exactly when it is the one signature of a hash below the modulus
  (`Rsa.VerifiesIffSigned`); for accepted primes every
  hash below it verifies exactly when the two primes differ, which key generation does not check. With one
  odd prime p drawn twice, a hash below the modulus verifies exactly when it is zero or its power p - 1 is 1
  modulo p * p (`Rsa.EqualPrimesVerify`). The proofs include Fermat's little theorem.

## Premises

- The block hash is a never-empty, injective function of everything in the block but its metadata
  (`Chain.Lawful`). Hashing, block and transaction signatures, base64 and JSON decoding, lottery proofs and
  draws are the fields of `Chain.Oracle` and `Ledgers.Checks`: the theorems hold for all of them.
- A new node's genesis block decodes to the settings it was encoded from, and an honest miner's
  signatures verify and its blocks decode to its selection (`Mempool.HonestMiner`).
- Integers are unbounded, except the 64-bit lottery product and 256-bit EVM balances, which wrap.
- Handlers are atomic, except in the gossip model, where the separately locked steps interleave.

## Model

| member | source | states |
|---|---|---|
| `Convergence.Converges` | peer/account/blockchain.go:327-403 | The same blocks in any two parent-first orders give the same accepted set, tree, canonical chain and ledger at every rollback |
| `Convergence.StoreIsGood` | peer/account/blockchain.go:327-403 | A delivered block is stored if and only if validated blocks of the set link it to the genesis; no order is mentioned |
| `Convergence.StoredBranchReplays` | peer/account/blockchain.go:618-644 | On every store AddBlock builds, each branch replays with no rejected transaction to the ledgers computed at validation |
| `Convergence.SameHeaderDiverges` | peer/account/blockchain.go:45-69 | Two acceptable blocks with one header, fed to any store in both orders, leave the same tree if and only if they are equal |
| `Convergence.SameHeaderForks` | peer/account/blockchain.go:458-470 | They leave the same canonical chain if and only if they are equal or not on it |
| `Convergence.TipTwinsFork` | peer/account/blockchain.go:422-470 | On the best leaf the one delivered last ends the canonical chain |
| `Convergence.TwinAccepted` | peer/account/blockchain.go:187-202 | Acceptance does not change with another spelling of the same transactions |
| `Convergence.TwinsDiverge` | peer/account/blockchain.go:187-202 | Two blocks with metadata "" and "[]" on one genesis make two nodes keep different canonical chains |
| `Convergence.GoodAccepted` | peer/account/blockchain.go:331-400 | Acceptance depends only on the path to the parent |
| `Acceptance.AcceptedIsProper` | peer/account/blockchain.go:336-391 | An accepted block is signed over all but its metadata, has the draw due for the genesis seed, its slot, key and proof, and at most 16 transactions |
| `Acceptance.SameSlotSameDraw` | peer/account/blockchain.go:361-374 | Accepted blocks of one genesis with the same slot, key and proof have the same draw |
| `Acceptance.AlteredDrawRefused` | peer/account/blockchain.go:361-374 | A block with another draw is refused, however it is signed again and whatever it carries |
| `Acceptance.MadeUpDrawRefused` | peer/account/blockchain.go:369-373 | Draw 0 is refused where 7 is due |
| `Acceptance.AcceptedWins` | peer/account/blockchain.go:354-381 | The key has a ticket on the parent's ledger and the draw wins there, at the base hardness for newcomers where that is higher |
| `Acceptance.AcceptedBodyApplies` | peer/account/blockchain.go:383-396 | Every transaction of an accepted block applies in its turn and is signed |
| `Acceptance.StoredIsProper` | peer/account/blockchain.go:327-403 | Over every list of deliveries all stored blocks but the genesis are proper |
| `Validation.ReplayMatchesValidation` | peer/account/blockchain.go:383-399 | Registering the miner before the transactions gives the ledger validation computed and rejects nothing |
| `Validation.ChainReplays` | peer/account/blockchain.go:618-644 | Every prefix of a validated chain replays to the validated ledger |
| `Chain.CalculateDepths` | peer/account/blockchain.go:422-455 | The loop yields the tree of the store: unsigned blocks and blocks with unknown parents are skipped |
| `Chain.TreeWellFormed` | peer/account/blockchain.go:422-455 | For any store with a parentless first block, nodes are filed under their hash and one deeper than their parent |
| `Chain.GetLeafHash` | peer/account/blockchain.go:458-470 | The leaf is deepest, with the smallest hash among the deepest, in any visiting order |
| `Chain.BestUnique` | peer/account/blockchain.go:458-470 | That leaf is unique |
| `Chain.BestLeafIs` | peer/account/blockchain.go:458-470 | It is deepest, and of the deepest the one whose hash comes first |
| `Chain.RollbackIs` | peer/account/blockchain.go:133-139 | The rollback is a prefix, shorter by the given number of blocks, and never empty |
| `Chain.GetBlocksFromLongestBranch` | peer/account/blockchain.go:545-561 | The walk ends and returns the branch in genesis-to-leaf order |
| `Chain.BranchShape` | peer/account/blockchain.go:545-561 | A branch is a linked, signed chain from the root, of length depth plus one |
| `Chain.ReverseInPlace` | peer/account/blockchain.go:556-559 | Swapping the ends inward reverses the list |
| `Chain.CanonicalBlocks` | peer/account/blockchain.go:127-145 | Returns the canonical chain without its last blocks, keeping at least the genesis |
| `Chain.CanonicalShape` | peer/account/blockchain.go:127-145 | The canonical chain is linked and signed, starts at the genesis, and no node is deeper than its end |
| `Chain.BestHeight` | peer/account/blockchain.go:313-324 | The greatest depth is the length of the canonical chain minus one |
| `Chain.CommittedHeightIsRollback` | peer/peer.go:1993-1999 | The committed height is the height of the chain left after the rollback |
| `Chain.CommittedChainStays` | peer/account/blockchain.go:127-145 | When the best chain changes without shortening, the committed chain stays a prefix if and only if at most finalityDepth blocks were dropped |
| `Finality.CommittedStep` | peer/peer.go:1993-1999 | An event with signed blocks extends the committed chain if and only if it keeps the genesis and takes at most finalityDepth blocks off the best chain |
| `Finality.CommittedGrows` | peer/account/blockchain.go:127-145 | Over every run of such events the committed chain only grows by extension |
| `Finality.GrowingIsShallow` | peer/account/blockchain.go:127-145 | A run that extends the committed chain at every step consists of such events |
| `Finality.CommittedIgnoresTip` | peer/account/blockchain.go:529-543 | The committed ledger does not depend on the last finalityDepth blocks |
| `Finality.DepthSets` | peer/peer.go:197-205 | Setting the finality depth commits to the best chain without that many blocks at its end, negative depths counting as zero |
| `Blockchains.Blockchain.AddBlock` | peer/account/blockchain.go:327-403 | Appends exactly the blocks that pass validation on their parent's branch, and nothing else changes |
| `Blockchains.Validate` | peer/account/blockchain.go:336-396 | The checks in code order decide the path-local validity predicate |
| `Blockchains.BuildLedgerFromBlocks` | peer/account/blockchain.go:618-644 | The loop over blocks and transactions computes the replayed ledger of the chain |
| `Blockchains.ApplyIgnoringFailures` | peer/account/blockchain.go:637-639 | Rejected transactions are skipped and leave no trace |
| `Blockchains.ApplyUntilFailure` | peer/account/blockchain.go:392-396 | Succeeds if and only if every transaction applies in order |
| `Blockchains.Blockchain.ReplaceBlocks` | peer/account/blockchain.go:147-155 | Replaces the store, except by an empty list |
| `Blockchains.LedgerFromBlockchain` | peer/account/blockchain.go:529-543 | The ledger of the best chain after a rollback |
| `LedgerObject.Ledger.Transaction` | peer/account/transaction.go:110-205 | Follows the transition function; a rejection of any kind leaves the ledger unchanged |
| `LedgerObject.Ledger.ApplyAMM` | peer/account/transaction.go:207-292 | Asset and pool transactions follow the transition function, rejected ones leaving no trace |
| `LedgerObject.Ledger.Swap` | peer/account/transaction.go:263-285 | The debit precedes the pool update, but a quote rules out its refusal, so a rejected swap changes nothing |
| `LedgerObject.Ledger.AddLiquidity` | peer/account/transaction.go:246-262 | Both sides are debited and both reserves grow, or nothing changes |
| `LedgerObject.Ledger.CreatePool` | peer/account/transaction.go:234-245 | An operator creates an empty pool under the identifier of two distinct assets, once |
| `LedgerObject.Ledger.MintNft` | peer/account/transaction.go:116-147 | A token is minted once per key, owned by the named or receiving account |
| `LedgerObject.Ledger.TransferNft` | peer/account/transaction.go:148-162 | Only the owner moves an unburned token |
| `LedgerObject.Ledger.CreditAsset` | peer/account/transaction.go:797-811 | Credits one account in one asset, PKN in the accounts map |
| `LedgerObject.Ledger.DebitAsset` | peer/account/transaction.go:813-831 | Debits one account if the balance allows, else changes nothing |
| `LedgerObject.Ledger.CanDebitAsset` | peer/account/transaction.go:833-843 | Tells whether the debit would succeed |
| `LedgerObject.Ledger.LotteryTickets` | peer/account/ledger.go:125-165 | One pass over the registry in any order gives the account's share |
| `LedgerObject.Ledger.VisitRegistry` | peer/account/ledger.go:135-142 | The pass sums the positive balances and counts the others |
| `LedgerObject.Ledger.InitializeFromGenesis` | peer/account/Genesis.go:149-158 | Balances are taken over and holders of a positive balance become validators |
| `LedgerLaws.NoncesInOrder` | peer/account/transaction.go:182-204 | Accepted nonces of a sender count up by one from the ledger's nonce, without gap or repeat |
| `Replays.NonceTakesEffectOnce` | peer/account/transaction.go:182-204 | An applied transaction that carries a nonce is rejected by every ledger that follows |
| `Replays.TokenMintedOnce` | peer/account/transaction.go:116-147 | So is an applied mint of a token |
| `Replays.TransferAgain` | peer/account/transaction.go:176-204 | An applied transfer applies to the resulting ledger again if and only if it is not EVM-signed and the balance covers it |
| `Replays.TransferRepeats` | peer/account/transaction.go:176-204 | A native transfer to another account applies k times in a row if and only if the balance covers k times its amount |
| `Replays.MintRepeats` | peer/account/transaction.go:163-173 | A mint that applies once applies any number of times and pays out each time |
| `LedgerLaws.NonceStep` | peer/account/transaction.go:211-220 | An accepted nonce-carrying transaction had the ledger's nonce and moves it by one; others leave all nonces |
| `LedgerLaws.ApplyWithValidator` | peer/account/transaction.go:784-786 | One more validator never turns an accepted transaction away or changes its effect otherwise |
| `LedgerLaws.Reapplies` | peer/account/transaction.go:506-525 | The normalised form handed back, with the paid-out amount, applies to the same ledger with the same effect |
| `Effects.PaymentAccepted` | peer/account/transaction.go:163-204 | The exact conditions under which a transfer and a mint are accepted |
| `Effects.PoolTxAccepted` | peer/account/transaction.go:207-292 | The exact conditions for every pool action: signature, nonce, operator, balances, pool, quote |
| `Effects.TokenTxAccepted` | peer/account/transaction.go:116-162 | A token is minted under a free key, and moved by its owner unless burned, by whoever signs |
| `Effects.RecordsAndRegisters` | peer/account/transaction.go:163-173 | An accepted transaction records its identifier; only a mint registers, and only a native receiver |
| `Effects.TokenMinted` | peer/account/transaction.go:116-147 | A minted token is new and belongs to the named owner, or else to the receiver |
| `Effects.PoolsAppear` | peer/account/transaction.go:234-245 | A new pool is empty, charges 30 basis points and holds the named assets; no pool disappears or changes assets or fee |
| `Effects.ReservesMove` | peer/account/transaction.go:246-285 | Reserves move only in the pool a deposit or swap names, by the deposit or by sale and quote |
| `Authority.AppliedIsSigned` | peer/account/transaction.go:179-181 | Every accepted transaction of any kind carries a signature that verifies |
| `Authority.SignedDecidesEffect` | peer/account/transaction.go:506-525 | Transactions with the same signed content are accepted alike and have the same effect |
| `Authority.UnsignedChangesNothing` | peer/account/transaction.go:110-205 | Where no signature verifies no list of transactions changes the ledger |
| `Authority.OperatorsOnly` | peer/account/transaction.go:221-262 | Credits, debits, new pools and deposits are accepted only from registered native validators |
| `Authority.FallIsAuthorised` | peer/account/transaction.go:110-292 | A balance falls only by a transaction signed by its owner, or by an operator's debit of it |
| `Authority.ListFallIsAuthorised` | peer/account/transaction.go:110-292 | The same over every list of transactions |
| `Conservation.ApplyAccounts` | peer/account/transaction.go:110-292 | The supply of every asset over balances and reserves changes by exactly what the transaction issues |
| `Conservation.SwapConservesIffNamed` | peer/account/transaction.go:278-285 | An accepted swap conserves every asset if and only if it names the pool's other asset |
| `Conservation.MisnamedSwapMakesGold` | peer/account/transaction.go:282-282 | A swap on the PKN-WPKN pool that names GOLD is accepted and makes 90 GOLD |
| `Conservation.ApplyNonNegative` | peer/account/transaction.go:110-292 | No accepted transaction leaves a negative balance or reserve |
| `Postings.ApplyPosts` | peer/account/transaction.go:110-292 | Every balance of every asset moves by exactly what the transaction posts to it, all others stay |
| `Postings.TokenStep` | peer/account/transaction.go:116-162 | Tokens appear only by a mint of their key, never disappear, and change only by a transfer of their owner |
| `Postings.TokensPersist` | peer/account/transaction.go:116-162 | Over any list of transactions a token keeps its minter and metadata |
| `ChainLaws.ChainConserves` | peer/account/blockchain.go:618-644 | Along every replayed chain PKN is the genesis total plus 10 per rewarded block plus what was issued; other assets are what was issued |
| `ChainLaws.ChainNonNegative` | peer/account/blockchain.go:618-644 | From a non-negative genesis no balance or reserve is ever negative |
| `ChainLaws.ChainNonces` | peer/account/transaction.go:182-204 | Along every replayed chain a sender's accepted nonces are 0, 1, 2, ... and the ledger's nonce is their number |
| `ChainPostings.ChainPosts` | peer/account/blockchain.go:618-644 | Along every replayed chain each balance is the genesis balance plus what accepted transactions post to it plus 10 for each decodable block it mined |
| `ChainPostings.ChainValidators` | peer/account/blockchain.go:618-644 | The validators are the genesis holders of a positive balance, the miners, and the native receivers of accepted mints |
| `ChainPostings.ChainFallIsAuthorised` | peer/account/blockchain.go:618-644 | A balance falls only if a later block holds an accepted transaction of its owner or an operator's debit of it |
| `Amm.SwapGrowsProduct` | peer/account/transaction.go:853-907 | An accepted quote is always applied, keeps both reserves positive and strictly grows their product |
| `Amm.NoFreeRun` | peer/account/transaction.go:853-907 | After any non-empty run of swaps, a side that is no larger leaves the other strictly larger |
| `Amm.SplittingNeverPays` | peer/account/transaction.go:853-875 | Any number of consecutive swaps of one total pays at most the single swap, which is then accepted too |
| `Amm.QuoteIsLargest` | peer/account/transaction.go:853-875 | A quote is the largest payout that keeps the product with the input less the fee, given exactly when both reserves, that input and the payout are positive and a reserve is left |
| `Amm.ForeignNeverQuoted` | peer/account/transaction.go:877-889 | An asset the pool does not hold is never quoted |
| `Text.PoolReachable` | peer/account/transaction.go:753-774 | A created pool is found under its own identifier, or under any name, if and only if its asset names hold no underscore or slash |
| `Text.PoolIDDeterminesPair` | peer/account/transaction.go:764-774 | No other pair has the identifier if and only if it splits into two ordered normal names in one place only |
| `Text.DashFreeSplitsOnce` | peer/account/transaction.go:764-774 | The identifier of two names without a dash splits in one place only |
| `Text.PoolIDsCollide` | peer/account/transaction.go:764-774 | The pairs A-B, C and A, B-C have one identifier |
| `Text.NormalizePoolIDIdempotent` | peer/account/transaction.go:753-762 | Normalising a pool identifier twice changes nothing more |
| `Text.AssetNormal` | peer/account/transaction.go:741-751 | Asset names are trimmed and upper-case after normalising, and stay so |
| `Text.AccountNormal` | peer/account/transaction.go:776-782 | Account names stay as they are after normalising once |
| `Text.SameAssetIff` | peer/account/transaction.go:741-751 | Two names are one asset if and only if they are equal up to white space and case, or spell the wrapped token in its two ways |
| `Text.SameAccountIff` | peer/account/transaction.go:776-782 | Two accounts are one if and only if they are equal up to white space, and up to case for 0x addresses |
| `Text.PoolIDSymmetric` | peer/account/transaction.go:764-774 | The identifier does not depend on the order of the assets |
| `Text.NftKeyInjective` | peer/account/transaction.go:909-922 | A token key determines collection and token |
| `Lottery.TicketCap` | peer/account/ledger.go:147-156 | A positive balance has at most 970,000 tickets if and only if it does not exceed the registered total by more than rounding; with nothing registered it has more |
| `Lottery.RegisteredCap` | peer/account/ledger.go:125-165 | A registered validator has at most 970,000 tickets |
| `Lottery.EveryKeyHasTickets` | peer/account/ledger.go:125-165 | An account has a ticket if and only if it is native and not in debt, or there are validators without positive balance |
| `Lottery.TicketsAreShares` | peer/account/ledger.go:125-165 | The tickets of every account as the largest share of 970,000 by balance or of 30,000 by head, at least one, newcomers counting themselves in |
| `Lottery.StakeWithinTickets` | peer/account/ledger.go:147-156 | A registered holder's tickets reach its balance if and only if the registered total is at most 970,000 or the balance is 1 |
| `Lottery.UnregisteredExceedsCap` | peer/account/ledger.go:147-156 | An unregistered holder can have 48,500,000 |
| `Lottery.PositiveTotal` | peer/account/ledger.go:125-165 | All positive-balance validators together have at most 970,000 tickets plus one for each raised to the minimum |
| `Lottery.ZeroTotal` | peer/account/ledger.go:157-164 | All other registered validators together have at most 30,000 tickets, or one each |
| `Lottery.WinsBelowProduct` | peer/account/blockchain.go:212-216 | A draw wins if and only if it is below the product of tickets and hardness modulo 2^64 |
| `Lottery.HardnessKeepsWinners` | peer/account/blockchain.go:212-216 | One hardness wins every draw another wins if and only if its wrapped threshold is no lower, or beyond the range of draws |
| `Lottery.MoreHardnessWins` | peer/account/blockchain.go:212-216 | Without wrap-around more hardness never lowers the threshold |
| `Lottery.MoreHardnessWraps` | peer/account/blockchain.go:212-216 | With 4 tickets, hardness 2^62 loses a draw that 2^61 wins |
| `Genesis.Config.ApplyDefaults` | peer/account/Genesis.go:80-105 | Defaults are written in place for every missing setting |
| `Genesis.DefaultsIdempotent` | peer/account/Genesis.go:80-105 | Writing them twice changes nothing more |
| `Genesis.DefaultsFill` | peer/account/Genesis.go:80-105 | Given settings stay, missing ones become 2000, 100, 10,000,000, 32, 2 and 20, and a maximum below the minimum is raised to it |
| `Genesis.AverageRecentSlotInterval` | peer/account/blockchain.go:261-286 | The loop computes the rounded average of the positive intervals of the window |
| `Genesis.AverageBounds` | peer/account/blockchain.go:261-286 | The average is at most the longest interval, and zero if and only if no interval is positive |
| `Genesis.AverageIsRounded` | peer/account/blockchain.go:261-286 | The average of the positive differences in the window, to the nearest slot, halves up |
| `Genesis.HardnessAimsAtTarget` | peer/account/blockchain.go:218-259 | From the fork height on hardness is the largest number whose product with the target, fast with transactions and idle without, is at most base hardness times average, within the bounds; before it, the base hardness within the bounds |
| `Genesis.HardnessInBounds` | peer/account/blockchain.go:218-227 | Effective hardness lies between the configured minimum and maximum |
| `Genesis.HardnessFollowsInterval` | peer/account/blockchain.go:241-259 | Longer recent intervals never lower the hardness value |
| `Genesis.PrecheckKeepsWinners` | peer/peer.go:1065-1076 | For all settings, chains and stakes: the precheck keeps every draw the exact check accepts if and only if its threshold is no lower, or beyond the range of draws |
| `Genesis.PrecheckSafe` | peer/peer.go:1016-1019 | With defaults and no wrap-around at the maximum it keeps them all |
| `Genesis.PrecheckWraps` | peer/peer.go:1016-1019 | With every default in place a stake of 1,844,674,407,371 wins and is turned away |
| `Genesis.PrecheckNeedsDefaults` | peer/peer.go:1065-1076 | Settings without defaults, as an adopted genesis may carry, turn a winner away |
| `Mempool.KeepApplicable` | peer/peer.go:1191-1206 | At most one pass more than pending transactions; kept ones apply in order, no other applies after them |
| `Mempool.Pass` | peer/peer.go:1194-1205 | A pass either keeps more or finds that nothing else applies |
| `Mempool.SelectTransactions` | peer/peer.go:1026-1038 | The loop selects what applies, in the form handed back, up to the block size |
| `Mempool.ChosenApplies` | peer/peer.go:1026-1038 | The selection applies in full and in order to the parent ledger, and leaves room only if it took everything that applied |
| `Mempool.ChosenFromPool` | peer/peer.go:1026-1038 | Nothing is selected that is not in the pool |
| `Mempool.CandidateAcceptedIffWins` | peer/peer.go:1048-1059 | A node accepts a candidate on its best leaf if and only if it wins the lottery on the canonical chain |
| `Mempool.HonestCandidate` | peer/account/blockchain.go:647-659 | What an honest miner builds is such a candidate |
| `Mempool.MinerHardnessAgrees` | peer/peer.go:1039-1045 | The miner's hardness, from its own settings, is the validator's if and only if the miner is registered or has a balance or the base hardness is no higher; otherwise the validator grants the base hardness |
| `Sync.HonestInstallsChain` | peer/peer.go:590-659 | An installed honest response leaves exactly the sender's chain, strictly longer, by whichever path |
| `Sync.HonestInstallsIff` | peer/peer.go:590-816 | An honest response is installed if and only if it is longer and shares the first block after the genesis, the whole local chain, or its own first block, by install path |
| `Sync.AdoptedIff` | peer/peer.go:665-693 | A chain with another genesis is installed if and only if the node may adopt, it is whole and its genesis decodes |
| `Sync.ExchangeCatchesUp` | peer/peer.go:695-816 | Suffix request and full fallback end with the longer chain if and only if the receiver is at the genesis or shares the next block |
| `Sync.InstalledStore` | peer/peer.go:695-816 | Any installed response is a linked chain with the old genesis and longer, unless a genesis is adopted; its canonical part ends at the first unsigned block |
| `Sync.SignedResponse` | peer/peer.go:695-816 | If the response carries signed blocks, the whole installed chain is canonical |
| `Sync.UnsignedOverlapShortens` | peer/peer.go:728-764 | A response with unsigned blocks shortens the chain from height 2 to height 1 |
| `Sync.LinearCanonical` | peer/account/blockchain.go:422-470 | The canonical chain of a linked store is the part before its first unsigned block |
| `Peers.GenesisFixed` | peer/peer.go:590-816 | Once a block was accepted no run of messages, mined slots and settings changes the genesis block |
| `Peers.GenesisFixedByBlock` | peer/peer.go:661-663 | One accepted block fixes the genesis block for every run after it |
| `Peers.FreshNodeAdopts` | peer/peer.go:661-693 | A node at height zero that accepted no block takes over a whole chain with another genesis, settings included |
| `Peers.HeightMonotone` | peer/peer.go:1224-1279 | If sync responses carry signed blocks the height never decreases over any run |
| `Peers.SyncHeight` | peer/peer.go:590-659 | A response keeps the height if and only if it is not installed or has as many blocks before its first unsigned one |
| `Peers.SettingsFollowGenesis` | peer/peer.go:685-689 | Over any run, adoptions included, the node's settings are those of its chain's genesis up to defaults |
| `Mining.MinedAcceptedIffWins` | peer/peer.go:1039-1059 | A node accepts what its honest miner built if and only if it wins the lottery on the canonical chain, at the base hardness for newcomers where that is higher and at the miner's hardness otherwise |
| `Mining.SlotOutcome` | peer/peer.go:1000-1063 | For the draw of the slot, the miner's two checks pass if and only if it is below its own limit, and the block is accepted if and only if it wins with the tickets |
| `Mining.StakeIgnoresTip` | peer/peer.go:1820-1825 | The miner's stake does not depend on the last finalityDepth blocks |
| `Mining.MinedDrawsAccepted` | peer/peer.go:1011-1045 | Every draw the node mines is accepted if and only if its limit is at most validation's, or validation's is beyond the range of draws |
| `Mining.AcceptableDrawsMined` | peer/account/blockchain.go:354-381 | Every acceptable draw is mined if and only if it is the other way round |
| `Mining.RegisteredMiner` | peer/peer.go:1820-1825 | For a registered miner without wrap-around all it mines is accepted if and only if the registered total is at most 970,000, or it has a single unit, or its tickets win every draw |
| `Mining.DefaultGenesisRefuses` | peer/account/Genesis.go:44-55 | At the default genesis draw 50,000,000 passes both checks of a holder and the holder's node refuses the block |
| `Mining.NoBalanceNeverMines` | peer/peer.go:1011-1015 | A node without balance has an acceptable block and never passes the precheck, in any slot at any finality depth |
| `Mining.NewcomerHardnessDiffers` | peer/account/blockchain.go:376-379 | A newcomer's miner computes hardness 10,000,000 where validation grants 20,000,000 |
| `Peers.HonestResponse` | peer/peer.go:590-659 | An honest response leaves the sender's chain or an unchanged node |
| `Peers.Peer.HandleChainSyncResponse` | peer/peer.go:590-659 | The handler takes the install path the response calls for, rebuilds the committed ledger, and asks for the whole chain exactly when a suffix does not name the local tip |
| `Peers.Peer.HandleChainSyncRequest` | peer/peer.go:549-588 | Serves the canonical chain from the clamped height to peers with the same genesis |
| `Peers.Peer.CanAdoptRemoteGenesis` | peer/peer.go:661-663 | Only at height zero, with no recorded transaction and no accepted block |
| `Peers.Peer.constructor` | peer/peer.go:185-195 | A new node has the defaults in its genesis record, a store of the encoded genesis and the ledger of it |
| `Peers.Peer.SetFinalityDepth` | peer/peer.go:197-205 | Negative depths count as zero, and the committed ledger is rebuilt at the new depth |
| `Peers.Peer.AdoptRemoteChain` | peer/peer.go:665-693 | Adopts contiguous chains with a decodable parentless genesis, its settings included; otherwise nothing changes |
| `Peers.Peer.InstallSyncedSuffix` | peer/peer.go:695-726 | Appends a contiguous suffix that names the local tip; one that does not makes the node ask for the whole chain |
| `Peers.Peer.InstallSyncedOverlap` | peer/peer.go:728-764 | Splices at the last common block if that is longer |
| `Peers.Peer.InstallFullChain` | peer/peer.go:766-816 | Splices a longer full chain at a common block after the genesis |
| `Peers.FindCommon` | peer/peer.go:783-790 | The scan finds the last remote block that is also local |
| `Peers.Peer.ApplyBlock` | peer/peer.go:1079-1101 | An accepted block rebuilds the ledger, drops its transactions and prunes the rest; a refused one changes nothing |
| `Peers.Peer.HandleBlock` | peer/peer.go:1224-1268 | Each message counts once; an accepted block drops its transactions and prunes the rest; a refused one with an unknown parent makes the node ask for the whole chain |
| `Peers.Peer.PruneInvalidMempool` | peer/peer.go:1179-1222 | What stays applies in the listed order to the best ledger; what goes does not apply to the ledger they produce |
| `Peers.Peer.MineOneSlot` | peer/peer.go:1000-1063 | The slot yields the candidate from the node's own pruned mempool, flooded once, if and only if it passes precheck, exact check and the node's own validation; a failed precheck changes nothing, a passed one writes the defaults and prunes the mempool |
| `Peers.Peer.MineCandidate` | peer/peer.go:1021-1061 | After the precheck: pruning, selection on the best ledger, exact check, candidate on the best leaf |
| `Peers.Peer.HandlePoSTransaction` | peer/peer.go:1123-1169 | Takes a checked transaction once per message and replaces a pending one with the same EVM sender and nonce; the mempool holds signed transactions only |
| `Peers.ReplacedKeepsOne` | peer/peer.go:1147-1160 | The mempool holds at most one EVM transaction per sender and nonce |
| `Peers.OthersStay` | peer/peer.go:1147-1160 | Only a pending EVM transaction of the same sender up to case and the same nonce gives way |
| `Peers.TakenIffChecked` | peer/peer.go:1128-1140 | A transaction is taken if and only if it is signed, its amount is allowed, and a pool transaction is accepted by the best ledger |
| `Flood.StepInv` | peer/peer.go:357-397 | Every step keeps one handler per peer, recorded senders, accounted connections, no repeat and no echo |
| `Flood.ForwardsOnce` | peer/peer.go:372-397 | No link carries the transaction twice and none carries it back to where it came from |
| `Flood.FloodTerminates` | peer/peer.go:312-397 | No run is longer than the initial weight |
| `Flood.StuckOnlyWhenQuiet` | peer/peer.go:312-397 | Nothing but evictions can happen if and only if nothing is in flight or half-processed |
| `Flood.HeldUnlessEvicted` | peer/peer.go:1140-1168 | Whoever has recorded the message has the transaction in its mempool, unless it evicted it |
| `Flood.FloodReachesAll` | peer/peer.go:903-914 | After a finished flood every peer with a path of peers from the origin that refused no delivery holds the transaction, unless it evicted it |
| `Flood.UntriedNeverRefused` | peer/peer.go:1137-1140 | A transaction that is no pool transaction is refused nowhere |
| `EvmState.RevertRestores` | peer/account/evm_state.go:212-223 | Reverting restores accounts, storage and the snapshot stack under any nesting in between |
| `EvmState.RevertRestoresLast` | peer/account/evm_state.go:212-223 | In every run, reverting to a live number restores the accounts of the last Snapshot that returned it, and keeps those last taken below |
| `EvmState.SnapshotHoldsLast` | peer/account/evm_state.go:220-223 | A live number holds the accounts of the last Snapshot that returned it |
| `EvmState.CopyAccounts` | peer/account/evm_state.go:253-266 | The copy looks the same and shares no storage |
| `EvmState.Adapter.SetState` | peer/account/evm_state.go:166-172 | The in-place write changes one slot of one live account and no snapshot |
| `EvmState.Adapter.GetState` | peer/account/evm_state.go:161-164 | Reads the slot, zero when unset |
| `EvmState.Adapter.CreateAccount` | peer/account/evm_state.go:76-80 | Adds an empty account where there is none |
| `EvmState.Adapter.AddBalance` | peer/account/evm_state.go:99-106 | Adds modulo 2^256, hands back the new balance and leaves everything else |
| `EvmState.Adapter.SubBalance` | peer/account/evm_state.go:86-97 | Subtracts down to zero, hands back the new balance and leaves everything else |
| `EvmState.Adapter.SetNonce` | peer/account/evm_state.go:116-120 | Sets one nonce and leaves everything else |
| `EvmState.Adapter.SetCode` | peer/account/evm_state.go:134-140 | Sets one code, hands back the previous one and leaves everything else |
| `EvmState.Adapter.SelfDestruct` | peer/account/evm_state.go:178-183 | Clears code and storage of one account and leaves everything else |
| `EvmState.Adapter.Snapshot` | peer/account/evm_state.go:220-223 | Saves a copy no later write reaches and returns its number |
| `EvmState.Adapter.RevertToSnapshot` | peer/account/evm_state.go:212-218 | Restores a copy and drops later snapshots; unknown numbers change nothing |
| `EvmState.Adapter.CallEVM` | peer/account/ledger.go:226-242 | A read-only call leaves accounts and storage as it found them |
| `EvmState.OnlyTarget` | peer/account/evm_state.go:76-183 | Every operation leaves other accounts and the snapshots alone |
| `EvmState.BalancesMove` | peer/account/evm_state.go:86-106 | Credits are exact modulo 2^256, debits exact down to zero, and nothing else of the account changes |
| `EvmState.CreditThenDebit` | peer/account/evm_state.go:86-106 | A credit and a debit of the same amount give back the balance |
| `EvmState.WritesRead` | peer/account/evm_state.go:116-172 | Nonce, code and slot are read as written, and the rest of the account stays |
| `EvmState.LifeAndDeath` | peer/account/evm_state.go:178-183 | Self-destruction clears code and storage and keeps nonce and balance; creation changes nothing that exists |
| `Rsa.SignatureVerifies` | peer/dissycrypto/signature.go:8-17 | For distinct accepted primes a signature verifies if and only if the hash is below the modulus |
| `Rsa.VerifiesIffSigned` | peer/dissycrypto/signature.go:13-17 | For distinct accepted primes a value verifies if and only if the hash is below the modulus and the value is its signature modulo n |
| `Rsa.AllHashesVerifyIffDistinct` | peer/dissycrypto/rsa.go:8-30 | For accepted primes every hash below the modulus verifies if and only if the primes differ |
| `Rsa.EqualPrimesVerify` | peer/dissycrypto/signature.go:8-17 | With one odd prime p drawn twice a hash verifies if and only if it is below the modulus and is zero or has power p - 1 equal to 1 modulo p * p |
| `Rsa.TwiceTwoVerify` | peer/dissycrypto/signature.go:8-17 | With 2 drawn twice only the hash 1 verifies |
| `Rsa.KeyGen` | peer/dissycrypto/rsa.go:8-30 | The first accepted pair drawn before the random source fails gives the key, with d inverse to e; a failure before it gives none |
| `Rsa.GcdWithThree` | peer/dissycrypto/rsa.go:32-40 | A prime is accepted if and only if 3 does not divide its predecessor |
| `Rsa.AcceptedPrimes` | peer/dissycrypto/rsa.go:32-40 | A pair is accepted if and only if 3 divides neither predecessor |
| `Rsa.InverseOfThree` | peer/dissycrypto/rsa.go:25-25 | The derived exponent is an inverse of 3 in range |

## Left out

- EVM bytecode execution and raw Ethereum decoding: contract transactions are outside the ledger model; EVM-signed transfers and pool transactions are in it.
- SHA-256, base64, JSON, AES wallet files and password hashing: library calls, given as oracle functions or not modelled.
- TCP framing, peer addresses, bootstrap manifests, HTTP and RPC handlers, dashboards, metrics, explorer, environment configuration and tickers: plumbing and presentation.
- The Solidity contract, deployment, Python and Postgres scripts.
- Legacy direct transactions (`handleTransaction`, `LedgerFromTransactions`): superseded by blocks.
- Bodies of recorded transactions: the model keeps the identifiers of `TxHistory`.
- Case mapping and white space beyond ASCII in names.
- 64-bit overflow of balances, reserves, products in quotes and the hardness product.
- The shared payload pointers of mempool entries: transactions are values, so that a trial on a ledger normalises a copy.
- `Rsa.KeyGen`: a run that never returns, because every pair drawn is refused, is not described.
- `Flood.FloodReachesAll`: which ledgers refuse a pool transaction is left open; any delivery of one may be refused.
- `Peers.Peer.MineOneSlot`: the miner's signatures and the encoding of transactions are functions given with the miner.
- `Mempool.HonestCandidate`: that RSA signatures and JSON encodings verify and decode is its premise; `Rsa.SignatureVerifies` is the law behind the first half.
