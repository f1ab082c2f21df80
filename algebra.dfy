/** The link-matrix algebra the lattice code is written against.

    The code is compiled for one gauge group SU(N) (the SUN macro) and works on
    link matrices only through a handful of macros: the unit matrix, the
    product, the hermitian conjugate ("dagger"), the real part of the trace and
    the conversion of a matrix to and from SUNVOL doubles.  None of their
    floating-point internals matter for the index bookkeeping modelled here,
    so the matrix type is a type parameter and the operations are a record of
    functions; `Lawful` lists the only facts about them that the proofs use. */
module LinkAlgebra {

  datatype Algebra<!M> = Algebra(
    n: nat,                          // SUN: the order of the group
    sunvol: nat,                     // SUNVOL: doubles per serialised matrix
    unit: M,                         // sun_unit
    mul: (M, M) -> M,                // sun_mul
    dag: M -> M,                     // sun_dag
    trace: M -> real,                // sun_trace (real part)
    toDoubles: M -> seq<real>,       // mk_sun_dble_array
    fromDoubles: seq<real> -> M      // mk_dble_array_sun
  )

  /** The facts about the group operations and the converters the model relies on. */
  ghost predicate Lawful<M(!new)>(g: Algebra<M>)
  {
    && g.n >= 1
    && g.dag(g.unit) == g.unit
    && g.trace(g.unit) == g.n as real
    && (forall a :: g.mul(g.unit, a) == a)
    && (forall a :: g.mul(a, g.unit) == a)
    && (forall a :: |g.toDoubles(a)| == g.sunvol)
    && (forall a :: g.fromDoubles(g.toDoubles(a)) == a)
  }

  /** sun_mul_dag: the product a * b^dagger. */
  function MulDag<M>(g: Algebra<M>, a: M, b: M): M
  {
    g.mul(a, g.dag(b))
  }

  /** NPLAQ, the number of plaquette orientations: one per pair of directions
      mu < nu, counted one new direction at a time.  That this is the macro's
      DIM*(DIM-1)/2 is the lemma Plaquette.NPlaqMacro. */
  function NPlaq(dim: nat): nat
  {
    if dim == 0 then 0 else NPlaq(dim - 1) + (dim - 1)
  }
}
