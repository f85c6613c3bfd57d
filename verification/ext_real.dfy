/** Objective cells: a finite match score, or minus infinity once a cell has
    been switched off by refractory masking. Only the float operations the
    engine applies to objective cells are modelled. */
module ExtReal {

  datatype Ext = NegInf | Fin(r: real)

  /** `a <= b` on the floats that can appear in the objective. */
  predicate Le(a: Ext, b: Ext) {
    a.NegInf? || (b.Fin? && a.r <= b.r)
  }

  /** `a < b`. */
  predicate Lt(a: Ext, b: Ext) {
    !Le(b, a)
  }

  /** `np.maximum(a, b)`. */
  function Max(a: Ext, b: Ext): (m: Ext)
    ensures Le(a, m) && Le(b, m)
    ensures m == a || m == b
  {
    if Le(a, b) then b else a
  }

  /** `a > threshold` for a finite threshold; false for minus infinity. */
  predicate Above(a: Ext, threshold: real) {
    a.Fin? && a.r > threshold
  }

  /** `a - d` for a finite `d`: minus infinity absorbs the subtraction. */
  function Minus(a: Ext, d: real): (m: Ext)
    ensures m.NegInf? <==> a.NegInf?
    ensures a.Fin? ==> m.r + d == a.r
  {
    if a.NegInf? then NegInf else Fin(a.r - d)
  }

  lemma LeTotal(a: Ext, b: Ext)
    ensures Le(a, b) || Le(b, a)
  {
  }

  lemma LeTransitive(a: Ext, b: Ext, c: Ext)
    requires Le(a, b) && Le(b, c)
    ensures Le(a, c)
  {
  }
}
