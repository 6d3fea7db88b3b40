/** One constructor per `raise InclusionError(...)` of the receipt-inclusion verifier. */
module InclusionErrors {

  datatype InclusionError =
      // JSON-RPC texts
    | MalformedHex
    | WrongByteWidth
    | MalformedQuantity
      // RLP integers
    | NonCanonicalInteger
    | IntegerTooLarge
      // trie proofs
    | InvalidProofArguments
    | InvalidHexPrefix
    | NonCanonicalEvenPath
    | ProofEndedEarly
    | NodeHashMismatch
    | InvalidReferenceWidth
    | MalformedNode
    | NonCanonicalNode
    | NodeNotAList
    | InvalidBranchValueOrUnusedNodes
    | EmptyTrieBranch
    | NodeNeitherBranchNorPair
    | PathMismatch
    | InvalidLeafOrUnusedNodes
    | EmptyExtensionReference
    | ProofTooDeep
      // receipts
    | MalformedReceipt
    | ReceiptTypeTooLarge
    | InvalidReceiptStatus
    | MissingStatusAndRoot
    | BloomMismatch
    | ReceiptTooLarge
      // transactions
    | EmptyTransaction
    | UnsupportedTransactionType
    | MalformedTransaction
    | NonCanonicalTransaction
    | MalformedDynamicFeeFields
    | InvalidDynamicFeeNumbers
    | InvalidDestination
    | MalformedAccessList
    | MalformedLegacyFields
    | UnprotectedLegacyTransaction
    | ChainIdMismatch
    | SignatureOutOfRange
    | SenderRecoveryFailed
      // headers
    | MalformedHeader
    | NonCanonicalHeader
    | MalformedHeaderFields
    | MalformedFixedWidthFields
    | GasUsedExceedsLimit
    | NonCanonicalHeaderNumbers
      // cases
    | TrustContextTooLarge
    | TrustContextNotPinned
    | MalformedTrustContext
    | UnsupportedChainFamily
    | InvalidTrustedChainId
    | MissingSourceIdentity
    | StaleTrustContext
    | FinalityClaimed
    | HeaderTooLarge
    | TooManyAncestryHeaders
    | AncestryTooLarge
    | BrokenAncestryLink
    | NotAnAncestorOfAnchor
    | InvalidTransactionIndex
    | TransactionTooLarge
    | MalformedExpectedSender
    | SenderMismatch
    | ReceiptTransactionHashMismatch
    | ReceiptIndexMismatch
    | ReceiptBlockHashMismatch
    | ReceiptBlockNumberMismatch
    | TypeMismatch
    | TooManyTransactionProofNodes
    | TooManyReceiptProofNodes
    | ProofsTooLarge
    | TransactionProofMismatch
    | ReceiptProofMismatch
}
