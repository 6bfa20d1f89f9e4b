/** An account as programs see it during execution (the AccountInfo records of
    pkg/svm/programs/system and pkg/svm/executor). */
module ExecAccount {
  import opened Bytes

  datatype Acct = Acct(
    key: Pubkey, owner: Pubkey, lamports: u64, data: seq<byte>, executable: bool, rentEpoch: u64,
    isSigner: bool, isWritable: bool)
}
