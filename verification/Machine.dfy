/** What the whole kernel shares: bytes, words, pages, null pointers and optional values. */
module Machine {

  type Byte = n: nat | n < 256

  /** How many values a 32-bit word has. */
  const WORD: nat := 0x1_0000_0000

  const PAGE_SIZE: nat := 4096

  /** The null pointer, where structures are named by their index in an array. */
  const NULL := -1

  datatype Option<T> = None | Some(value: T)

  lemma Associate<T>(a: seq<T>, b: seq<T>, c: seq<T>)
    ensures a + (b + c) == (a + b) + c
  {
  }
}
