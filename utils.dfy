/** Models lib/utils.ts: the Option type and repeatString.
    The base64 wrappers atob/btoa sit on Node's Buffer and are not modelled
    here; callers receive the decoder as a function parameter instead. */
module Utils {

  /** The source's `None | Some<T>` pair of classes. */
  datatype Option<T> = None | Some(value: T)

  /** What a thrown `Error` becomes in the model. */
  datatype Result<T, E> = Success(value: T) | Failure(error: E)

  /** Reference definition: `n` copies of `ch`, built by prepending one copy
      at a time (the opposite end from the loop in RepeatString). */
  function Repeat(ch: string, n: int): (r: string)
    ensures |r| == if n <= 0 then 0 else |ch| * n
    decreases if n <= 0 then 0 else n
  {
    if n <= 0 then "" else ch + Repeat(ch, n - 1)
  }

  /** One more copy can equally be added at the end. */
  lemma {:induction false} RepeatAppend(ch: string, n: int)
    requires n >= 0
    ensures Repeat(ch, n + 1) == Repeat(ch, n) + ch
    decreases n
  {
    if n > 0 {
      RepeatAppend(ch, n - 1);
      assert Repeat(ch, n + 1) == ch + (Repeat(ch, n - 1) + ch);
    }
  }

  /** Position `i` of the result holds character `i mod |ch|` of `ch`. */
  lemma {:induction false} RepeatAt(ch: string, n: int, i: int)
    requires |ch| > 0 && 0 <= i < |Repeat(ch, n)|
    ensures Repeat(ch, n)[i] == ch[i % |ch|]
    decreases n
  {
    if i >= |ch| {
      RepeatAt(ch, n - 1, i - |ch|);
      ModShift(i - |ch|, |ch|);
    }
  }

  /** Distinct multiples of `m` are at least `m` apart. */
  lemma {:induction false} MulGap(a: int, b: int, m: int)
    requires m > 0
    ensures a > b ==> a * m >= b * m + m
    decreases if a > b then a - b else 0
  {
    if a > b + 1 {
      MulGap(a - 1, b, m);
      assert a * m == (a - 1) * m + m;
    } else if a == b + 1 {
      assert a * m == b * m + m;
    }
  }

  /** Adding the modulus once does not change the remainder. */
  lemma ModShift(j: int, m: int)
    requires j >= 0 && m > 0
    ensures (j + m) % m == j % m
  {
    var q, r := j / m, j % m;
    assert j + m == (q + 1) * m + r;
    var q', r' := (j + m) / m, (j + m) % m;
    assert (q + 1) * m + r == q' * m + r';
    MulGap(q', q + 1, m);
    MulGap(q + 1, q', m);
  }

  /** `repeatString(ch, num)`: appends `ch` to an initially empty string
      once per iteration of `for (i = 0; i < num; i++)`. */
  method RepeatString(ch: string, num: int) returns (str: string)
    ensures str == Repeat(ch, num)
    ensures num <= 0 || ch == "" ==> str == ""
    ensures |str| == if num <= 0 then 0 else |ch| * num
    ensures forall k :: 0 <= k < |str| && |ch| > 0 ==> str[k] == ch[k % |ch|]
  {
    str := "";
    var i := 0;
    while i < num
      invariant 0 <= i && (num >= 0 ==> i <= num) && (num < 0 ==> i == 0)
      invariant str == Repeat(ch, i)
    {
      RepeatAppend(ch, i);
      str := str + ch;
      i := i + 1;
    }
    forall k | 0 <= k < |str| && |ch| > 0
      ensures str[k] == ch[k % |ch|]
    {
      RepeatAt(ch, num, k);
    }
  }
}
