/**
The hash functions that turn transcripts into challenges. They are left open: Oracle holds
any functions from bytes, and any encoding of scalars and points as bytes.
*/
module FiatShamir {
  type Bytes = seq<int>

  datatype Item<F, P> = Scalar(scalar: F) | Point(point: P)

  datatype Oracle<!F, !P> = Oracle(
    derive: Bytes -> F,
    derivePoint: Bytes -> P,
    encode: Item<F, P> -> Bytes)
  {
    function ScalarBytes(x: F): Bytes {
      encode(Scalar(x))
    }

    function PointBytes(x: P): Bytes {
      encode(Point(x))
    }
  }
}
