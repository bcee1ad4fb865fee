/** 32-bit machine words and page arithmetic shared by every component.

    The C code computes with `uint32_t`.  Addresses, sizes and table entries are therefore
    modelled as integers in [0, 2^32), and every addition or subtraction that the C code lets
    wrap goes through `Wrap`. */
module Words {
  const TWO_TO_32 := 0x1_0000_0000
  const PAGE_SIZE := 4096

  type Word = x: int | 0 <= x < TWO_TO_32

  type Byte = x: int | 0 <= x < 256

  /** The value a `uint32_t` holds after an arithmetic operation whose exact result is `x`. */
  function Wrap(x: int): Word {
    x % TWO_TO_32
  }

  /** `a & ~0xFFF` */
  function PageBase(a: int): int {
    a - a % PAGE_SIZE
  }
}

/** The two outcomes of a lookup. */
module Options {
  datatype Option<+T> = None | Some(value: T)
}
