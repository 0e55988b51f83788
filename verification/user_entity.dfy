/** The `users` table row (user.entity.ts). Timestamps are left out; the reset expiry is a
    `Date`, kept as its value in milliseconds since the epoch. */
module UserEntity {
  import opened Wrappers

  datatype UserRole = ADMIN | USER

  datatype User = User(
    id: int,
    email: string,
    password: string,
    role: UserRole,
    isVerified: bool,
    verificationToken: Option<string>,
    resetPasswordToken: Option<string>,
    resetPasswordExpires: Option<int>)
}
