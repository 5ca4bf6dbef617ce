/**
 * The result envelope `{status, message, data}` that every path of the
 * service ends in, and the promise that carries it to the caller.
 */
module OutputFactory {

  datatype Envelope<D> = Envelope(status: int, message: string, data: D)

  /**
   * What the caller of an `async` operation eventually receives: the
   * envelope the promise was resolved with, or nothing at all when no
   * path ever calls `resolve`.
   */
  datatype Response<D> = Pending | Resolved(envelope: Envelope<D>)

  /**
   * One call of `resolve(e)`. A promise settles once: the first call wins
   * and every later call is ignored.
   */
  function Settle<D>(p: Response<D>, e: Envelope<D>): (r: Response<D>)
    ensures r.Resolved?
    ensures p.Resolved? ==> r == p
    ensures p.Pending? ==> r.envelope == e
  {
    match p
    case Pending => Resolved(e)
    case Resolved(_) => p
  }
}
