/** Status codes of the RPMsg layer. */
module RpmsgErrors {
  const RPMSG_SUCCESS: int := 0
  const RPMSG_ERR_NO_BUFF: int := -2002
  const RPMSG_ERR_PARAM: int := -2003
  const RPMSG_ERR_DEV_STATE: int := -2004
  const RPMSG_ERR_BUFF_SIZE: int := -2005
  const RPMSG_ERR_ADDR: int := -2007
}
